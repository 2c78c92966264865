/** Mirroring one category: a loop over pages against a durable cursor, with failures and crashes. */
module SyncRunner {
  import opened Wrappers
  import opened CursorUrls

  // ----- pages

  datatype RawEntry = RawEntry(
    id: Option<string>, term: Option<string>, updated: Option<string>, next: Option<Url>,
    enclosureResolves: bool, payload: int)

  /** A response body; an entry's payload is opaque here. */
  datatype RawPage = RawPage(entries: seq<RawEntry>, feedNext: Option<Url>, resume: Option<Url>)

  datatype Page = Page(payloads: seq<int>, next: Option<Url>, resume: Option<Url>)

  /** An entry of the category with its id and time, a cursor to the page after it, and no
      enclosure link that is no URL. */
  predicate IsEntry(client: Client, entry: RawEntry) {
    && entry.id.Some? && entry.updated.Some? && entry.enclosureResolves
    && entry.term.Some? && CategoriesMatch(entry.term.value, client.category)
    && entry.next.Some? && IsCursor(client, entry.next.value)
  }

  function ParseEntries(client: Client, entries: seq<RawEntry>): Option<seq<int>> {
    if entries == [] then Some([]) else
    var last := entries[|entries| - 1];
    match ParseEntries(client, entries[..|entries| - 1])
    case None => None
    case Some(front) => if IsEntry(client, last) then Some(front + [last.payload]) else None
  }

  predicate IsLink(client: Client, link: Option<Url>) {
    link.Some? ==> IsCursor(client, link.value)
  }

  /** A page is accepted when all its entries and links are; the next request is the last entry's
      link, or the feed's own if there is no entry. */
  function ParsePage(client: Client, raw: RawPage): (page: Option<Page>)
    ensures page.Some? <==>
      && (forall e :: e in raw.entries ==> IsEntry(client, e))
      && IsLink(client, raw.feedNext) && IsLink(client, raw.resume)
    ensures page.Some? ==> IsLink(client, page.value.next) && IsLink(client, page.value.resume)
    ensures page.Some? ==> page.value.resume == raw.resume && |page.value.payloads| == |raw.entries|
    ensures page.Some? ==>
      page.value.next == if raw.entries == [] then raw.feedNext else raw.entries[|raw.entries| - 1].next
    ensures page.Some? ==> forall i :: 0 <= i < |raw.entries| ==> page.value.payloads[i] == raw.entries[i].payload
  {
    ParsedEntries(client, raw.entries);
    match ParseEntries(client, raw.entries)
    case None => None
    case Some(payloads) =>
      if !IsLink(client, raw.feedNext) || !IsLink(client, raw.resume) then None
      else
        var next := if raw.entries == [] then raw.feedNext else raw.entries[|raw.entries| - 1].next;
        Some(Page(payloads, next, raw.resume))
  }

  lemma {:induction false} ParsedEntries(client: Client, entries: seq<RawEntry>)
    ensures var r := ParseEntries(client, entries);
      && (r.Some? <==> forall e :: e in entries ==> IsEntry(client, e))
      && (r.Some? ==> |r.value| == |entries| && forall i :: 0 <= i < |entries| ==> r.value[i] == entries[i].payload)
  {
    if entries != [] {
      ParsedEntries(client, entries[..|entries| - 1]);
      assert entries == entries[..|entries| - 1] + [entries[|entries| - 1]];
    }
  }

  /** A page is accepted if every entry has an id, a time, the category, an enclosure link that resolves
      if there is one, and an accepted cursor as its next link, and so are the feed's own links. */
  lemma AcceptedPagesAre(client: Client, raw: RawPage)
    ensures ParsePage(client, raw).Some? <==> (
      && (forall e :: e in raw.entries ==>
            && e.id.Some? && e.updated.Some? && e.enclosureResolves
            && e.term.Some? && CategoriesMatch(e.term.value, client.category)
            && e.next.Some? && IsCursor(client, e.next.value))
      && (raw.feedNext.Some? ==> IsCursor(client, raw.feedNext.value))
      && (raw.resume.Some? ==> IsCursor(client, raw.resume.value)))
  {
    forall e | e in raw.entries ensures IsEntry(client, e) <==>
      && e.id.Some? && e.updated.Some? && e.enclosureResolves
      && e.term.Some? && CategoriesMatch(e.term.value, client.category)
      && e.next.Some? && IsCursor(client, e.next.value) {}
  }

  // ----- the durable store

  /** The row of the category's cursor. */
  datatype Stored = Stored(latestSkiptoken: int, nextUrl: Url, caughtUp: bool)

  /** One committed step: the page answered to `request`, after which the row points to `next`. */
  datatype Applied = Applied(request: Url, page: Page, next: Url, token: int)

  datatype Disk = Disk(row: Option<Stored>, log: seq<Applied>)

  function Commit(disk: Disk, step: Applied): Disk {
    Disk(Some(Stored(step.token, step.next, step.page.payloads == [])), disk.log + [step])
  }

  // ----- what the surroundings decide

  /** What becomes of one store call: refused; committed but reported as failed; committed; or
      the process dies just before or just after the commit. */
  datatype Fate = Refused | Unacknowledged | Kept | CrashBefore | CrashAfter

  datatype Reply = FetchFailed(transient: bool) | Answered(raw: RawPage)

  /** One turn of the loop: shutdown seen before or while fetching, the reply, whether an error
      can be recorded, whether the payloads parse, the store call, and shutdown afterwards. */
  datatype Round = Round(stop: bool, reply: Reply, recorded: bool, parses: bool, fate: Fate, stopAfter: bool)

  datatype Phase = Fetching | Parsing | Writing | MarkingCaughtUp | MissingLink

  datatype Exit = Returned | Failed(phase: Phase) | Crashed

  datatype Report = Report(pagesWritten: nat, entitiesSeen: nat, caughtUp: bool, latestSkiptoken: Option<int>)

  const NOTHING_DONE := Report(0, 0, false, None)

  // ----- one run, as a function

  /** The cursor a fresh start takes from the durable row. */
  function StartCursor(client: Client, disk: Disk): Option<Url> {
    match disk.row
    case None => Some(FirstPage(client))
    case Some(row) => if IsCursor(client, row.nextUrl) then Some(row.nextUrl) else None
  }

  datatype Turned = Again(disk: Disk, cursor: Url, report: Report) | Ends(disk: Disk, exit: Exit, report: Report)

  /** A store call: whether the commit happens, and how the loop goes on. */
  function StoreCall(
    disk: Disk, step: Applied, round: Round, phase: Phase, report: Report, after: Report, stops: bool): Turned
  {
    match round.fate
    case Refused => Ends(disk, Failed(if round.recorded then phase else Writing), report)
    case Unacknowledged => Ends(Commit(disk, step), Failed(if round.recorded then phase else Writing), report)
    case CrashBefore => Ends(disk, Crashed, report)
    case CrashAfter => Ends(Commit(disk, step), Crashed, report)
    case Kept =>
      if stops then Ends(Commit(disk, step), Returned, after) else Again(Commit(disk, step), step.next, after)
  }

  function Turn(client: Client, untilCaughtUp: bool, disk: Disk, cursor: Url, report: Report, round: Round): Turned {
    if round.stop then Ends(disk, Returned, report)
    else match round.reply
      case FetchFailed(transient) => AfterFetchError(untilCaughtUp, disk, cursor, report, round, transient)
      case Answered(raw) =>
        match ParsePage(client, raw)
        case None => AfterFetchError(untilCaughtUp, disk, cursor, report, round, false)
        case Some(page) =>
          if page.payloads == [] then AfterEmptyPage(client, untilCaughtUp, disk, cursor, report, round, page)
          else AfterFullPage(client, disk, cursor, report, round, page)
  }

  /** The link a page is left by: an empty page's resume, or else the next request. */
  function LinkOf(page: Page): Option<Url> {
    if page.payloads == [] then page.resume else page.next
  }

  /** The step to commit, if the link is there and has a token. */
  function StepOf(client: Client, cursor: Url, page: Page): Option<Applied> {
    match LinkOf(page)
    case None => None
    case Some(link) =>
      match SkiptokenFromUrl(link)
      case None => None
      case Some(token) => Some(Applied(cursor, page, link, token))
  }

  function OneMorePage(report: Report, step: Applied): Report {
    Report(report.pagesWritten + 1, report.entitiesSeen + |step.page.payloads|, report.caughtUp, Some(step.token))
  }

  /** An empty page is the end of the feed for now: its resume link becomes the durable cursor. */
  function AfterEmptyPage(
    client: Client, untilCaughtUp: bool, disk: Disk, cursor: Url, report: Report, round: Round, page: Page): Turned
  {
    if page.resume.None? then Ends(disk, Failed(MissingLink), report)
    else match StepOf(client, cursor, page)
      case None => Ends(disk, Failed(if round.recorded then MarkingCaughtUp else Writing), report)
      case Some(step) =>
        StoreCall(disk, step, round, MarkingCaughtUp, report,
          report.(caughtUp := true, latestSkiptoken := Some(step.token)), round.stopAfter || untilCaughtUp)
  }

  function AfterFullPage(client: Client, disk: Disk, cursor: Url, report: Report, round: Round, page: Page): Turned {
    match StepOf(client, cursor, page)
    case None => Ends(disk, Failed(MissingLink), report)
    case Some(step) =>
      if !round.parses then Ends(disk, Failed(if round.recorded then Parsing else Writing), report)
      else StoreCall(disk, step, round, Writing, report, OneMorePage(report, step), round.stopAfter)
  }

  /** Recorded, then retried in continuous mode if transient. */
  function AfterFetchError(
    untilCaughtUp: bool, disk: Disk, cursor: Url, report: Report, round: Round, transient: bool): Turned
  {
    if !round.recorded then Ends(disk, Failed(Writing), report)
    else if untilCaughtUp || !transient then Ends(disk, Failed(Fetching), report)
    else if round.stopAfter then Ends(disk, Returned, report)
    else Again(disk, cursor, report)
  }

  /** The loop; when the surroundings have no more rounds the process is killed. */
  function Loop(client: Client, untilCaughtUp: bool, disk: Disk, cursor: Url, report: Report, rounds: seq<Round>):
    (Disk, Exit, Report)
    decreases |rounds|
  {
    if rounds == [] then (disk, Crashed, report)
    else match Turn(client, untilCaughtUp, disk, cursor, report, rounds[0])
      case Ends(after, exit, final) => (after, exit, final)
      case Again(after, next, soFar) => Loop(client, untilCaughtUp, after, next, soFar, rounds[1..])
  }

  function Run(client: Client, untilCaughtUp: bool, disk: Disk, rounds: seq<Round>): (Disk, Exit, Report) {
    if untilCaughtUp && disk.row.Some? && disk.row.value.caughtUp then
      (disk, Returned, Report(0, 0, true, Some(disk.row.value.latestSkiptoken)))
    else match StartCursor(client, disk)
      case None => (disk, Failed(Fetching), NOTHING_DONE)
      case Some(cursor) => Loop(client, untilCaughtUp, disk, cursor, NOTHING_DONE, rounds)
  }

  // ----- one run, as the program does it

  class SyncStore {
    var row: Option<Stored>
    var log: seq<Applied>

    constructor (disk: Disk)
      ensures OnDisk() == disk
    {
      row, log := disk.row, disk.log;
    }

    function OnDisk(): Disk
      reads this
    {
      Disk(row, log)
    }

    /** One transaction writes the page and the row; `ok` is what the caller is told. */
    method Write(step: Applied, fate: Fate) returns (ok: bool)
      modifies this
      ensures ok == fate.Kept?
      ensures OnDisk() == if fate.Refused? || fate.CrashBefore? then old(OnDisk()) else Commit(old(OnDisk()), step)
    {
      if fate.Kept? || fate.Unacknowledged? || fate.CrashAfter? {
        row := Some(Stored(step.token, step.next, step.page.payloads == []));
        log := log + [step];
      }
      ok := fate.Kept?;
    }
  }

  class CategoryRunner {
    const client: Client
    const untilCaughtUp: bool
    const store: SyncStore

    constructor (client: Client, untilCaughtUp: bool, store: SyncStore)
      ensures this.client == client && this.untilCaughtUp == untilCaughtUp && this.store == store
    {
      this.client, this.untilCaughtUp, this.store := client, untilCaughtUp, store;
    }

    function DeadOr(round: Round, exit: Exit): Exit {
      if round.fate.CrashBefore? || round.fate.CrashAfter? then Crashed else exit
    }

    function Recorded(round: Round, phase: Phase): Exit {
      Failed(if round.recorded then phase else Writing)
    }

    /** Whether the loop ends, and otherwise the next cursor and report. */
    method HandleEmptyPage(cursor: Url, page: Page, round: Round, before: Report)
      returns (exit: Option<Exit>, next: Url, report: Report)
      requires page.payloads == []
      modifies store
      ensures var t := AfterEmptyPage(client, untilCaughtUp, old(store.OnDisk()), cursor, before, round, page);
        && t.disk == store.OnDisk() && t.report == report
        && (if t.Ends? then exit == Some(t.exit) else exit == None && next == t.cursor)
    {
      exit, next, report := None, cursor, before;
      if page.resume.None? { return Some(Failed(MissingLink)), next, report; }
      var token := SkiptokenFromUrl(page.resume.value);
      if token.None? { return Some(Recorded(round, MarkingCaughtUp)), next, report; }
      var marked := store.Write(Applied(cursor, page, page.resume.value, token.value), round.fate);
      if !marked { return Some(DeadOr(round, Recorded(round, MarkingCaughtUp))), next, report; }
      report := report.(caughtUp := true, latestSkiptoken := Some(token.value));
      next := page.resume.value;
      if round.stopAfter || untilCaughtUp { exit := Some(Returned); }
    }

    method WritePreparedPage(cursor: Url, page: Page, round: Round, before: Report)
      returns (exit: Option<Exit>, next: Url, report: Report)
      requires page.payloads != []
      modifies store
      ensures var t := AfterFullPage(client, old(store.OnDisk()), cursor, before, round, page);
        && t.disk == store.OnDisk() && t.report == report
        && (if t.Ends? then exit == Some(t.exit) else exit == None && next == t.cursor)
    {
      exit, next, report := None, cursor, before;
      if page.next.None? { return Some(Failed(MissingLink)), next, report; }
      var token := SkiptokenFromUrl(page.next.value);
      if token.None? { return Some(Failed(MissingLink)), next, report; }
      if !round.parses { return Some(Recorded(round, Parsing)), next, report; }
      var written := store.Write(Applied(cursor, page, page.next.value, token.value), round.fate);
      if !written { return Some(DeadOr(round, Recorded(round, Writing))), next, report; }
      report := Report(report.pagesWritten + 1, report.entitiesSeen + |page.payloads|, report.caughtUp,
        Some(token.value));
      next := page.next.value;
      if round.stopAfter { exit := Some(Returned); }
    }

    method RunCategory(rounds: seq<Round>) returns (exit: Exit, report: Report)
      modifies store
      ensures (store.OnDisk(), exit, report) == Run(client, untilCaughtUp, old(store.OnDisk()), rounds)
    {
      if untilCaughtUp && store.row.Some? && store.row.value.caughtUp {
        return Returned, Report(0, 0, true, Some(store.row.value.latestSkiptoken));
      }
      report := NOTHING_DONE;
      var cursor := FirstPage(client);
      if store.row.Some? {
        var valid := ValidateCursorUrl(client, store.row.value.nextUrl);
        if valid.Err? { return Failed(Fetching), report; }
        cursor := store.row.value.nextUrl;
      }
      var n := 0;
      while n < |rounds|
        invariant 0 <= n <= |rounds|
        invariant Run(client, untilCaughtUp, old(store.OnDisk()), rounds)
          == Loop(client, untilCaughtUp, store.OnDisk(), cursor, report, rounds[n..])
      {
        var round := rounds[n];
        assert rounds[n..][1..] == rounds[n + 1..];
        n := n + 1;
        if round.stop { return Returned, report; }
        var page := if round.reply.Answered? then ParsePage(client, round.reply.raw) else None;
        if page.None? {
          if !round.recorded { return Failed(Writing), report; }
          if untilCaughtUp || round.reply.Answered? || !round.reply.transient { return Failed(Fetching), report; }
          if round.stopAfter { return Returned, report; }
          continue;
        }
        var ends: Option<Exit>;
        if page.value.payloads == [] {
          ends, cursor, report := HandleEmptyPage(cursor, page.value, round, report);
        } else {
          ends, cursor, report := WritePreparedPage(cursor, page.value, round, report);
        }
        if ends.Some? { return ends.value, report; }
      }
      return Crashed, report;
    }
  }

  // ----- how a loop goes on from one round

  /** A shutdown ends a loop. A continuous run goes on after a transient failure it could record, from
      the same cursor and disk; a failure that is permanent, or in a run until caught up, or a page
      that is not accepted, ends it with nothing changed. */
  lemma LoopWithoutPage(
    client: Client, untilCaughtUp: bool, disk: Disk, cursor: Url, report: Report, rounds: seq<Round>)
    requires rounds != []
    requires !rounds[0].stop && rounds[0].reply.Answered? ==> ParsePage(client, rounds[0].reply.raw).None?
    ensures var round, l := rounds[0], Loop(client, untilCaughtUp, disk, cursor, report, rounds);
      if round.stop then l == (disk, Returned, report)
      else if !round.recorded then l == (disk, Failed(Writing), report)
      else if round.reply == FetchFailed(true) && !untilCaughtUp then
        l == (if round.stopAfter then (disk, Returned, report)
              else Loop(client, untilCaughtUp, disk, cursor, report, rounds[1..]))
      else l == (disk, Failed(Fetching), report)
  {}

  /** A run starts at the stored link, or at the first page of its category if there is none; a run
      until caught up does nothing where the last page was empty. */
  lemma RunStartsAt(client: Client, untilCaughtUp: bool, disk: Disk, rounds: seq<Round>)
    ensures var first := Url(client.base.scheme, client.base.host, client.base.port, "/SyncFeed/2.0/Feed",
        [("category", client.category), ("content", client.contentMode)]);
      var r := Run(client, untilCaughtUp, disk, rounds);
      if disk.row.None? then r == Loop(client, untilCaughtUp, disk, first, Report(0, 0, false, None), rounds)
      else if untilCaughtUp && disk.row.value.caughtUp then
        r == (disk, Returned, Report(0, 0, true, Some(disk.row.value.latestSkiptoken)))
      else if IsCursor(client, disk.row.value.nextUrl) then
        r == Loop(client, untilCaughtUp, disk, disk.row.value.nextUrl, Report(0, 0, false, None), rounds)
      else r == (disk, Failed(Fetching), Report(0, 0, false, None))
  {}

  /** What a loop does with a page whose link is there and has a token: it commits the page with that
      link unless its payloads do not parse or the store call does not go through, and goes on from
      the link exactly if it learns of the commit and is not to stop. */
  lemma LoopTakesPage(
    client: Client, untilCaughtUp: bool, disk: Disk, cursor: Url, report: Report, rounds: seq<Round>, page: Page,
    link: Url, token: int)
    requires rounds != [] && !rounds[0].stop && rounds[0].reply.Answered?
    requires ParsePage(client, rounds[0].reply.raw) == Some(page) && SkiptokenFromUrl(link) == Some(token)
    requires Some(link) == if page.payloads == [] then page.resume else page.next
    ensures var round, l := rounds[0], Loop(client, untilCaughtUp, disk, cursor, report, rounds);
      var committed := Disk(
        Some(Stored(token, link, page.payloads == [])), disk.log + [Applied(cursor, page, link, token)]);
      var after := if page.payloads == [] then Report(report.pagesWritten, report.entitiesSeen, true, Some(token))
        else Report(report.pagesWritten + 1, report.entitiesSeen + |page.payloads|, report.caughtUp, Some(token));
      var failure := Failed(if round.recorded && page.payloads == [] then MarkingCaughtUp else Writing);
      if page.payloads != [] && !round.parses then
        l == (disk, Failed(if round.recorded then Parsing else Writing), report)
      else if round.fate == Refused then l == (disk, failure, report)
      else if round.fate == Unacknowledged then l == (committed, failure, report)
      else if round.fate == CrashBefore then l == (disk, Crashed, report)
      else if round.fate == CrashAfter then l == (committed, Crashed, report)
      else if round.stopAfter || (page.payloads == [] && untilCaughtUp) then l == (committed, Returned, after)
      else l == Loop(client, untilCaughtUp, committed, link, after, rounds[1..])
  {
    assert StepOf(client, cursor, page) == Some(Applied(cursor, page, link, token));
  }

  /** A page without its link, or with a link without a token, ends the loop with nothing changed. */
  lemma LoopWithoutWayOn(
    client: Client, untilCaughtUp: bool, disk: Disk, cursor: Url, report: Report, rounds: seq<Round>, page: Page)
    requires rounds != [] && !rounds[0].stop && rounds[0].reply.Answered?
    requires ParsePage(client, rounds[0].reply.raw) == Some(page)
    ensures var link, recorded := if page.payloads == [] then page.resume else page.next, rounds[0].recorded;
      var l := Loop(client, untilCaughtUp, disk, cursor, report, rounds);
      && (link.None? || (page.payloads != [] && SkiptokenFromUrl(link.value).None?) ==>
            l == (disk, Failed(MissingLink), report))
      && (link.Some? && page.payloads == [] && SkiptokenFromUrl(link.value).None? ==>
            l == (disk, Failed(if recorded then MarkingCaughtUp else Writing), report))
  {}

  // ----- what every run keeps

  /** Every step requests what the one before pointed to. */
  ghost predicate IsChain(first: Url, log: seq<Applied>) {
    forall i: nat :: i < |log| ==> log[i].request == EndOf(first, log[..i])
  }

  /** Where a log leads to. */
  function EndOf(first: Url, log: seq<Applied>): Url {
    if log == [] then first else log[|log| - 1].next
  }

  /** A step takes a page's own link: an empty page's resume, or else the next request. */
  ghost predicate IsStep(client: Client, step: Applied) {
    && LinkOf(step.page) == Some(step.next)
    && IsCursor(client, step.next) && SkiptokenFromUrl(step.next) == Some(step.token)
  }

  /** The log is one chain from where it started, and the row says where it stands: at the last
      step's link, with that link's own token, caught up exactly after an empty page. */
  ghost predicate Consistent(client: Client, start: Disk, disk: Disk) {
    && StartCursor(client, start).Some? && start.log == []
    && IsChain(StartCursor(client, start).value, disk.log)
    && (forall step :: step in disk.log ==> IsStep(client, step))
    && disk.row == (if disk.log == [] then start.row else
         var last := disk.log[|disk.log| - 1]; Some(Stored(last.token, last.next, last.page.payloads == [])))
  }

  lemma CommitKeepsConsistent(client: Client, start: Disk, disk: Disk, step: Applied)
    requires Consistent(client, start, disk) && StartCursor(client, disk) == Some(step.request) && IsStep(client, step)
    ensures Consistent(client, start, Commit(disk, step)) && StartCursor(client, Commit(disk, step)) == Some(step.next)
  {
    var first := StartCursor(client, start).value;
    if disk.log == [] {
      assert step.request == first;
    } else {
      assert disk.log[|disk.log| - 1] in disk.log;
      assert step.request == disk.log[|disk.log| - 1].next;
    }
    ChainGrows(first, disk.log, step);
  }

  lemma ChainGrows(first: Url, log: seq<Applied>, step: Applied)
    requires IsChain(first, log) && step.request == EndOf(first, log)
    ensures IsChain(first, log + [step])
  {
    var more := log + [step];
    forall i: nat | i < |more| ensures more[i].request == EndOf(first, more[..i]) {
      assert more[..i] == log[..i];
      if i == |log| {
        assert log[..i] == log;
      }
    }
  }

  /** The step a page allows from a cursor. */
  ghost predicate IsStepFor(client: Client, cursor: Url, reply: Reply, step: Applied) {
    && step.request == cursor && IsStep(client, step)
    && reply.Answered? && ParsePage(client, reply.raw) == Some(step.page)
  }

  /** Not at work on a category that is already caught up, when only asked to catch up. */
  predicate NeedsWork(untilCaughtUp: bool, disk: Disk) {
    untilCaughtUp ==> !(disk.row.Some? && disk.row.value.caughtUp)
  }

  /** The outcome of a turn: nothing committed, or one step for the page answered to the cursor;
      and the cursor of the next turn is the one a fresh start would load. */
  ghost predicate TurnOk(
    client: Client, untilCaughtUp: bool, start: Disk, disk: Disk, cursor: Url, reply: Reply, t: Turned)
  {
    && Consistent(client, start, t.disk)
    && (t.disk == disk || exists step :: IsStepFor(client, cursor, reply, step) && t.disk == Commit(disk, step))
    && (t.Again? ==> StartCursor(client, t.disk) == Some(t.cursor) && NeedsWork(untilCaughtUp, t.disk))
  }

  lemma StoreCallOk(
    client: Client, untilCaughtUp: bool, start: Disk, disk: Disk, step: Applied, round: Round, phase: Phase,
    report: Report, after: Report, stops: bool)
    requires Consistent(client, start, disk) && StartCursor(client, disk) == Some(step.request)
    requires IsStepFor(client, step.request, round.reply, step)
    requires untilCaughtUp && step.page.payloads == [] ==> stops
    ensures TurnOk(client, untilCaughtUp, start, disk, step.request, round.reply,
      StoreCall(disk, step, round, phase, report, after, stops))
  {
    var t := StoreCall(disk, step, round, phase, report, after, stops);
    if t.disk != disk {
      assert t.disk == Commit(disk, step) && (t.Again? ==> t.cursor == step.next && !stops);
      CommittedOk(client, untilCaughtUp, start, disk, step, round.reply, t);
    } else {
      assert |Commit(disk, step).log| == |disk.log| + 1;
    }
  }

  lemma CommittedOk(
    client: Client, untilCaughtUp: bool, start: Disk, disk: Disk, step: Applied, reply: Reply, t: Turned)
    requires Consistent(client, start, disk) && StartCursor(client, disk) == Some(step.request)
    requires IsStepFor(client, step.request, reply, step) && t.disk == Commit(disk, step)
    requires t.Again? ==> t.cursor == step.next && (untilCaughtUp ==> step.page.payloads != [])
    ensures TurnOk(client, untilCaughtUp, start, disk, step.request, reply, t)
  {
    CommitKeepsConsistent(client, start, disk, step);
  }

  lemma StepOfIsStep(client: Client, cursor: Url, reply: Reply, page: Page)
    requires reply.Answered? && ParsePage(client, reply.raw) == Some(page)
    ensures StepOf(client, cursor, page).Some? ==> IsStepFor(client, cursor, reply, StepOf(client, cursor, page).value)
  {}

  lemma EmptyPageOk(
    client: Client, untilCaughtUp: bool, start: Disk, disk: Disk, cursor: Url, report: Report, round: Round, page: Page)
    requires Consistent(client, start, disk) && StartCursor(client, disk) == Some(cursor)
    requires page.payloads == [] && round.reply.Answered? && ParsePage(client, round.reply.raw) == Some(page)
    ensures TurnOk(client, untilCaughtUp, start, disk, cursor, round.reply,
      AfterEmptyPage(client, untilCaughtUp, disk, cursor, report, round, page))
  {
    StepOfIsStep(client, cursor, round.reply, page);
    var step := StepOf(client, cursor, page);
    if page.resume.Some? && step.Some? {
      StoreCallOk(client, untilCaughtUp, start, disk, step.value, round, MarkingCaughtUp, report,
        report.(caughtUp := true, latestSkiptoken := Some(step.value.token)), round.stopAfter || untilCaughtUp);
    }
  }

  lemma FullPageOk(
    client: Client, untilCaughtUp: bool, start: Disk, disk: Disk, cursor: Url, report: Report, round: Round, page: Page)
    requires Consistent(client, start, disk) && StartCursor(client, disk) == Some(cursor)
    requires page.payloads != [] && round.reply.Answered? && ParsePage(client, round.reply.raw) == Some(page)
    ensures TurnOk(client, untilCaughtUp, start, disk, cursor, round.reply,
      AfterFullPage(client, disk, cursor, report, round, page))
  {
    StepOfIsStep(client, cursor, round.reply, page);
    var step := StepOf(client, cursor, page);
    if step.Some? && round.parses {
      StoreCallOk(client, untilCaughtUp, start, disk, step.value, round, Writing, report,
        OneMorePage(report, step.value), round.stopAfter);
    }
  }

  lemma TurnKeepsCursor(
    client: Client, untilCaughtUp: bool, start: Disk, disk: Disk, cursor: Url, report: Report, round: Round)
    requires Consistent(client, start, disk) && StartCursor(client, disk) == Some(cursor)
    requires NeedsWork(untilCaughtUp, disk)
    ensures TurnOk(client, untilCaughtUp, start, disk, cursor, round.reply,
      Turn(client, untilCaughtUp, disk, cursor, report, round))
  {
    if !round.stop && round.reply.Answered? && ParsePage(client, round.reply.raw).Some? {
      var page := ParsePage(client, round.reply.raw).value;
      if page.payloads == [] {
        EmptyPageOk(client, untilCaughtUp, start, disk, cursor, report, round, page);
      } else {
        FullPageOk(client, untilCaughtUp, start, disk, cursor, report, round, page);
      }
    }
  }

  // ----- restarts

  /** The state after n turns, while the loop still runs. */
  function Head(
    client: Client, untilCaughtUp: bool, disk: Disk, cursor: Url, report: Report, rounds: seq<Round>,
    n: nat): Option<Turned>
    requires n <= |rounds|
    decreases n
  {
    if n == 0 then Some(Again(disk, cursor, report))
    else match Turn(client, untilCaughtUp, disk, cursor, report, rounds[0])
      case Ends(_, _, _) => None
      case Again(after, next, soFar) => Head(client, untilCaughtUp, after, next, soFar, rounds[1..], n - 1)
  }

  /** At every loop head the in-memory cursor is the one a fresh start would load. */
  lemma {:induction false} CursorIsDurable(
    client: Client, untilCaughtUp: bool, start: Disk, disk: Disk, cursor: Url, report: Report, rounds: seq<Round>,
    n: nat)
    requires Consistent(client, start, disk) && StartCursor(client, disk) == Some(cursor)
    requires NeedsWork(untilCaughtUp, disk)
    requires n <= |rounds|
    ensures var head := Head(client, untilCaughtUp, disk, cursor, report, rounds, n);
      head.Some? ==> (
        && head.value.Again? && StartCursor(client, head.value.disk) == Some(head.value.cursor)
        && Consistent(client, start, head.value.disk) && NeedsWork(untilCaughtUp, head.value.disk))
    decreases n
  {
    if n > 0 {
      TurnKeepsCursor(client, untilCaughtUp, start, disk, cursor, report, rounds[0]);
      var t := Turn(client, untilCaughtUp, disk, cursor, report, rounds[0]);
      if t.Again? {
        CursorIsDurable(client, untilCaughtUp, start, t.disk, t.cursor, t.report, rounds[1..], n - 1);
      }
    }
  }

  predicate SameButReport(a: Turned, b: Turned) {
    && a.disk == b.disk && a.Again? == b.Again?
    && (if a.Again? then a.cursor == b.cursor else a.exit == b.exit)
  }

  lemma PagesIgnoreReport(
    client: Client, untilCaughtUp: bool, disk: Disk, cursor: Url, a: Report, b: Report, round: Round, page: Page)
    ensures SameButReport(AfterEmptyPage(client, untilCaughtUp, disk, cursor, a, round, page),
      AfterEmptyPage(client, untilCaughtUp, disk, cursor, b, round, page))
    ensures SameButReport(AfterFullPage(client, disk, cursor, a, round, page),
      AfterFullPage(client, disk, cursor, b, round, page))
  {}

  lemma TurnIgnoresReport(
    client: Client, untilCaughtUp: bool, disk: Disk, cursor: Url, a: Report, b: Report, round: Round)
    ensures SameButReport(Turn(client, untilCaughtUp, disk, cursor, a, round),
      Turn(client, untilCaughtUp, disk, cursor, b, round))
  {
    if !round.stop && round.reply.Answered? && ParsePage(client, round.reply.raw).Some? {
      PagesIgnoreReport(client, untilCaughtUp, disk, cursor, a, b, round, ParsePage(client, round.reply.raw).value);
    }
  }

  /** What a loop leaves on disk and how it ends do not depend on its report. */
  lemma {:induction false} ReportDoesNotMatter(
    client: Client, untilCaughtUp: bool, disk: Disk, cursor: Url, a: Report, b: Report, rounds: seq<Round>)
    ensures var la, lb := Loop(client, untilCaughtUp, disk, cursor, a, rounds), Loop(client, untilCaughtUp, disk,
      cursor, b, rounds);
      la.0 == lb.0 && la.1 == lb.1
    decreases |rounds|
  {
    if rounds != [] {
      var ta := Turn(client, untilCaughtUp, disk, cursor, a, rounds[0]);
      var tb := Turn(client, untilCaughtUp, disk, cursor, b, rounds[0]);
      TurnIgnoresReport(client, untilCaughtUp, disk, cursor, a, b, rounds[0]);
      if ta.Again? {
        ReportDoesNotMatter(client, untilCaughtUp, ta.disk, ta.cursor, ta.report, tb.report, rounds[1..]);
      }
    }
  }

  lemma {:induction false} LoopFromHead(
    client: Client, untilCaughtUp: bool, disk: Disk, cursor: Url, report: Report, rounds: seq<Round>, n: nat)
    requires n <= |rounds| && Head(client, untilCaughtUp, disk, cursor, report, rounds, n).Some?
    requires Head(client, untilCaughtUp, disk, cursor, report, rounds, n).value.Again?
    ensures var head := Head(client, untilCaughtUp, disk, cursor, report, rounds, n).value;
      Loop(client, untilCaughtUp, disk, cursor, report, rounds) ==
      Loop(client, untilCaughtUp, head.disk, head.cursor, head.report, rounds[n..])
    decreases n
  {
    if n == 0 {
      assert rounds[0..] == rounds;
    } else {
      var t := Turn(client, untilCaughtUp, disk, cursor, report, rounds[0]);
      LoopFromHead(client, untilCaughtUp, t.disk, t.cursor, t.report, rounds[1..], n - 1);
      assert rounds[1..][n - 1..] == rounds[n..];
    }
  }

  /** Killing the process at any loop head and starting it again changes nothing: disk and
      outcome are those of the run that was never killed. */
  lemma RestartIsInvisible(client: Client, untilCaughtUp: bool, start: Disk, disk: Disk, rounds: seq<Round>, n: nat)
    requires Consistent(client, start, disk) && NeedsWork(untilCaughtUp, disk) && n <= |rounds|
    requires StartCursor(client, disk).Some?
    requires Head(client, untilCaughtUp, disk, StartCursor(client, disk).value, NOTHING_DONE, rounds, n).Some?
    ensures var killed := Run(client, untilCaughtUp, disk, rounds[..n]);
      var restarted := Run(client, untilCaughtUp, killed.0, rounds[n..]);
      var whole := Run(client, untilCaughtUp, disk, rounds);
      killed.1 == Crashed && restarted.0 == whole.0 && restarted.1 == whole.1
  {
    var cursor := StartCursor(client, disk).value;
    var head := Head(client, untilCaughtUp, disk, cursor, NOTHING_DONE, rounds, n).value;
    CursorIsDurable(client, untilCaughtUp, start, disk, cursor, NOTHING_DONE, rounds, n);
    LoopFromHead(client, untilCaughtUp, disk, cursor, NOTHING_DONE, rounds, n);
    HeadNeedsOnlyItsRounds(client, untilCaughtUp, disk, cursor, NOTHING_DONE, rounds, n);
    LoopFromHead(client, untilCaughtUp, disk, cursor, NOTHING_DONE, rounds[..n], n);
    assert rounds[..n][n..] == [];
    ReportDoesNotMatter(client, untilCaughtUp, head.disk, head.cursor, head.report, NOTHING_DONE, rounds[n..]);
  }

  lemma {:induction false} HeadNeedsOnlyItsRounds(
    client: Client, untilCaughtUp: bool, disk: Disk, cursor: Url, report: Report, rounds: seq<Round>, n: nat)
    requires n <= |rounds|
    ensures Head(client, untilCaughtUp, disk, cursor, report, rounds[..n], n)
      == Head(client, untilCaughtUp, disk, cursor, report, rounds, n)
    decreases n
  {
    if n > 0 {
      assert rounds[..n][0] == rounds[0] && rounds[..n][1..] == rounds[1..][..n - 1];
      var t := Turn(client, untilCaughtUp, disk, cursor, report, rounds[0]);
      HeadAfter(client, untilCaughtUp, disk, cursor, report, rounds, n, t);
      HeadAfter(client, untilCaughtUp, disk, cursor, report, rounds[..n], n, t);
      if t.Again? {
        HeadNeedsOnlyItsRounds(client, untilCaughtUp, t.disk, t.cursor, t.report, rounds[1..], n - 1);
      }
    }
  }

  lemma HeadAfter(
    client: Client, untilCaughtUp: bool, disk: Disk, cursor: Url, report: Report, rounds: seq<Round>, n: nat, t: Turned)
    requires 0 < n <= |rounds| && t == Turn(client, untilCaughtUp, disk, cursor, report, rounds[0])
    ensures Head(client, untilCaughtUp, disk, cursor, report, rounds, n)
      == if t.Ends? then None else Head(client, untilCaughtUp, t.disk, t.cursor, t.report, rounds[1..], n - 1)
  {}

  // ----- whole histories

  lemma {:induction false} LoopKeepsConsistent(
    client: Client, untilCaughtUp: bool, start: Disk, disk: Disk, cursor: Url, report: Report, rounds: seq<Round>)
    requires Consistent(client, start, disk) && StartCursor(client, disk) == Some(cursor)
    requires NeedsWork(untilCaughtUp, disk)
    ensures Consistent(client, start, Loop(client, untilCaughtUp, disk, cursor, report, rounds).0)
    ensures disk.log <= Loop(client, untilCaughtUp, disk, cursor, report, rounds).0.log
    decreases |rounds|
  {
    if rounds != [] {
      TurnKeepsCursor(client, untilCaughtUp, start, disk, cursor, report, rounds[0]);
      var t := Turn(client, untilCaughtUp, disk, cursor, report, rounds[0]);
      assert disk.log <= t.disk.log;
      if t.Again? {
        LoopKeepsConsistent(client, untilCaughtUp, start, t.disk, t.cursor, t.report, rounds[1..]);
      }
    }
  }

  /** One start of the process after another, in either mode. */
  datatype Life = Life(untilCaughtUp: bool, rounds: seq<Round>)

  function Lives(client: Client, disk: Disk, lives: seq<Life>): Disk {
    if lives == [] then disk else
    Run(client, lives[|lives| - 1].untilCaughtUp, Lives(client, disk, lives[..|lives| - 1]),
      lives[|lives| - 1].rounds).0
  }

  /** Under any errors, shutdowns, crashes and restarts, the committed pages are one chain of
      next and resume links from the first start: none skipped, none taken out of turn. */
  lemma {:induction false} HistoriesAreChains(client: Client, start: Disk, lives: seq<Life>)
    requires start.log == [] && StartCursor(client, start).Some?
    ensures Consistent(client, start, Lives(client, start, lives))
    ensures lives != [] ==> Lives(client, start, lives[..|lives| - 1]).log <= Lives(client, start, lives).log
  {
    if lives != [] {
      var front, last := lives[..|lives| - 1], lives[|lives| - 1];
      HistoriesAreChains(client, start, front);
      var disk := Lives(client, start, front);
      if NeedsWork(last.untilCaughtUp, disk) {
        CanStart(client, start, disk);
        LoopKeepsConsistent(client, last.untilCaughtUp, start, disk, StartCursor(client, disk).value, NOTHING_DONE,
          last.rounds);
      }
    }
  }

  /** A start never fails on the row that runs left behind. */
  lemma CanStart(client: Client, start: Disk, disk: Disk)
    requires Consistent(client, start, disk)
    ensures StartCursor(client, disk).Some?
    ensures disk.log != [] ==> SkiptokenFromUrl(disk.row.value.nextUrl) == Some(disk.row.value.latestSkiptoken)
  {
    if disk.log != [] {
      assert disk.log[|disk.log| - 1] in disk.log;
    }
  }

  // ----- what is committed, exactly

  predicate Commits(fate: Fate) {
    fate.Kept? || fate.Unacknowledged? || fate.CrashAfter?
  }

  /** The page answered in a round, if one is looked at and accepted. */
  function PageOf(client: Client, round: Round): Option<Page> {
    if round.stop || !round.reply.Answered? then None else ParsePage(client, round.reply.raw)
  }

  /** The link to leave the page by is there, and its first skiptoken is the text of an integer. */
  predicate HasWayOn(page: Page) {
    LinkOf(page).Some? && HasTokenText(LinkOf(page).value)
  }

  lemma StepIffWayOn(client: Client, cursor: Url, page: Page)
    requires LinkOf(page).Some? ==> IsCursor(client, LinkOf(page).value)
    ensures StepOf(client, cursor, page).Some? <==> HasWayOn(page)
  {
    if LinkOf(page).Some? { AcceptedHasTokenIff(client, LinkOf(page).value); }
  }

  /** A turn commits a step if and only if a page was answered whose link has a token, its payloads
      parse, and the store call goes through; otherwise nothing changes. */
  lemma CommitsIff(
    client: Client, untilCaughtUp: bool, disk: Disk, cursor: Url, report: Report, round: Round)
    ensures var t, page := Turn(client, untilCaughtUp, disk, cursor, report, round), PageOf(client, round);
      if page.Some? && HasWayOn(page.value) && (page.value.payloads == [] || round.parses) && Commits(round.fate)
      then StepOf(client, cursor, page.value).Some? && t.disk == Commit(disk, StepOf(client, cursor, page.value).value)
      else t.disk == disk
  {
    var page := PageOf(client, round);
    if page.Some? {
      StepIffWayOn(client, cursor, page.value);
      PageCommits(client, untilCaughtUp, disk, cursor, report, round, page.value);
    }
  }

  lemma PageCommits(
    client: Client, untilCaughtUp: bool, disk: Disk, cursor: Url, report: Report, round: Round, page: Page)
    ensures var step := StepOf(client, cursor, page);
      var t := if page.payloads == [] then AfterEmptyPage(client, untilCaughtUp, disk, cursor, report, round, page)
               else AfterFullPage(client, disk, cursor, report, round, page);
      t.disk == if step.Some? && (page.payloads == [] || round.parses) && Commits(round.fate)
        then Commit(disk, step.value) else disk
  {}

  // ----- feeds

  /** The answers a feed may give to a request, at one time or another. */
  type Feed = (Url, RawPage) -> bool

  /** Every answer is one of the feed's. */
  ghost predicate HonestLoop(
    client: Client, feed: Feed, untilCaughtUp: bool, disk: Disk, cursor: Url, rounds: seq<Round>)
    decreases |rounds|
  {
    rounds != [] ==>
      var t := Turn(client, untilCaughtUp, disk, cursor, NOTHING_DONE, rounds[0]);
      && (rounds[0].reply.Answered? ==> feed(cursor, rounds[0].reply.raw))
      && (t.Again? ==> HonestLoop(client, feed, untilCaughtUp, t.disk, t.cursor, rounds[1..]))
  }

  ghost predicate HonestRun(client: Client, feed: Feed, life: Life, disk: Disk) {
    StartCursor(client, disk).Some? && NeedsWork(life.untilCaughtUp, disk) ==>
      HonestLoop(client, feed, life.untilCaughtUp, disk, StartCursor(client, disk).value, life.rounds)
  }

  ghost predicate Honest(client: Client, feed: Feed, start: Disk, lives: seq<Life>) {
    lives != [] ==>
      && Honest(client, feed, start, lives[..|lives| - 1])
      && HonestRun(client, feed, lives[|lives| - 1], Lives(client, start, lives[..|lives| - 1]))
  }

  /** The step's page is one the feed gave for its request. */
  ghost predicate IsServed(client: Client, feed: Feed, step: Applied) {
    exists raw :: feed(step.request, raw) && ParsePage(client, raw) == Some(step.page)
  }

  ghost predicate Served(client: Client, feed: Feed, log: seq<Applied>) {
    forall step :: step in log ==> IsServed(client, feed, step)
  }

  lemma TurnServed(
    client: Client, feed: Feed, untilCaughtUp: bool, disk: Disk, cursor: Url, report: Report, round: Round)
    requires Served(client, feed, disk.log) && (round.reply.Answered? ==> feed(cursor, round.reply.raw))
    ensures Served(client, feed, Turn(client, untilCaughtUp, disk, cursor, report, round).disk.log)
  {
    CommitsIff(client, untilCaughtUp, disk, cursor, report, round);
    var t, page := Turn(client, untilCaughtUp, disk, cursor, report, round), PageOf(client, round);
    if t.disk != disk {
      assert IsServed(client, feed, StepOf(client, cursor, page.value).value);
    }
  }

  lemma {:induction false} LoopServed(
    client: Client, feed: Feed, untilCaughtUp: bool, disk: Disk, cursor: Url, report: Report, rounds: seq<Round>)
    requires HonestLoop(client, feed, untilCaughtUp, disk, cursor, rounds) && Served(client, feed, disk.log)
    ensures Served(client, feed, Loop(client, untilCaughtUp, disk, cursor, report, rounds).0.log)
    decreases |rounds|
  {
    if rounds != [] {
      TurnServed(client, feed, untilCaughtUp, disk, cursor, report, rounds[0]);
      TurnIgnoresReport(client, untilCaughtUp, disk, cursor, report, NOTHING_DONE, rounds[0]);
      var t := Turn(client, untilCaughtUp, disk, cursor, report, rounds[0]);
      if t.Again? {
        LoopServed(client, feed, untilCaughtUp, t.disk, t.cursor, t.report, rounds[1..]);
      }
    }
  }

  lemma {:induction false} HistoryServed(client: Client, feed: Feed, start: Disk, lives: seq<Life>)
    requires start.log == [] && Honest(client, feed, start, lives)
    ensures Served(client, feed, Lives(client, start, lives).log)
  {
    if lives != [] {
      var front, last := lives[..|lives| - 1], lives[|lives| - 1];
      HistoryServed(client, feed, start, front);
      var disk := Lives(client, start, front);
      if StartCursor(client, disk).Some? && NeedsWork(last.untilCaughtUp, disk) {
        LoopServed(
          client, feed, last.untilCaughtUp, disk, StartCursor(client, disk).value, NOTHING_DONE, last.rounds);
      }
    }
  }

  // ----- a feed of entries in a row

  /** The feed is a row of entries. A cursor stands at a position in it, and any answer holds entries
      from there on, as many as there happen to be, and links to the position after them. */
  ghost predicate IsRow(client: Client, feed: Feed, position: Url -> nat, entries: nat -> int) {
    forall url, raw :: feed(url, raw) && ParsePage(client, raw).Some? ==>
      IsSlice(position, entries, url, ParsePage(client, raw).value)
  }

  ghost predicate IsSlice(position: Url -> nat, entries: nat -> int, url: Url, page: Page) {
    && (forall i: nat :: i < |page.payloads| ==> page.payloads[i] == entries(position(url) + i))
    && (LinkOf(page).Some? ==> position(LinkOf(page).value) == position(url) + |page.payloads|)
  }

  /** All payloads committed, in order. */
  function Delivered(log: seq<Applied>): seq<int> {
    if log == [] then [] else Delivered(log[..|log| - 1]) + log[|log| - 1].page.payloads
  }

  ghost predicate DeliveredInRow(
    position: Url -> nat, entries: nat -> int, first: Url, log: seq<Applied>)
  {
    && position(EndOf(first, log)) == position(first) + |Delivered(log)|
    && forall i: nat :: i < |Delivered(log)| ==> Delivered(log)[i] == entries(position(first) + i)
  }

  lemma NextDelivered(
    position: Url -> nat, entries: nat -> int, first: Url, front: seq<Applied>, last: Applied)
    requires DeliveredInRow(position, entries, first, front) && last.request == EndOf(first, front)
    requires IsSlice(position, entries, last.request, last.page) && LinkOf(last.page) == Some(last.next)
    ensures DeliveredInRow(position, entries, first, front + [last])
  {
    var log := front + [last];
    assert log[..|log| - 1] == front;
    forall i: nat | i < |Delivered(log)| ensures Delivered(log)[i] == entries(position(first) + i) {
      if i >= |Delivered(front)| {
        var j: nat := i - |Delivered(front)|;
        assert last.page.payloads[j] == entries(position(last.request) + j);
      }
    }
  }

  lemma ServedIsSlice(client: Client, feed: Feed, position: Url -> nat, entries: nat -> int, step: Applied)
    requires IsRow(client, feed, position, entries) && IsServed(client, feed, step) && IsStep(client, step)
    ensures IsSlice(position, entries, step.request, step.page) && LinkOf(step.page) == Some(step.next)
  {
    var raw :| feed(step.request, raw) && ParsePage(client, raw) == Some(step.page);
  }

  lemma {:induction false} ChainDelivers(
    client: Client, feed: Feed, position: Url -> nat, entries: nat -> int, first: Url, log: seq<Applied>, n: nat)
    requires IsRow(client, feed, position, entries) && IsChain(first, log) && Served(client, feed, log)
    requires (forall step :: step in log ==> IsStep(client, step)) && n <= |log|
    ensures DeliveredInRow(position, entries, first, log[..n])
  {
    if n > 0 {
      ChainDelivers(client, feed, position, entries, first, log, n - 1);
      var last := log[n - 1];
      assert last in log && last.request == EndOf(first, log[..n - 1]);
      ServedIsSlice(client, feed, position, entries, last);
      NextDelivered(position, entries, first, log[..n - 1], last);
      assert log[..n] == log[..n - 1] + [last];
    }
  }

  /** However the feed grows meanwhile, and under any errors, shutdowns, crashes and restarts: the
      payloads committed are the feed's entries from the first cursor on, each exactly once and in
      order, and the durable cursor stands right after them. */
  lemma EntriesExactlyOnce(
    client: Client, feed: Feed, position: Url -> nat, entries: nat -> int, start: Disk, lives: seq<Life>)
    requires start.log == [] && StartCursor(client, start).Some?
    requires IsRow(client, feed, position, entries) && Honest(client, feed, start, lives)
    ensures var disk, first := Lives(client, start, lives), StartCursor(client, start).value;
      && DeliveredInRow(position, entries, first, disk.log)
      && StartCursor(client, disk) == Some(EndOf(first, disk.log))
  {
    var disk, first := Lives(client, start, lives), StartCursor(client, start).value;
    HistoryServed(client, feed, start, lives);
    HistoriesAreChains(client, start, lives);
    ChainDelivers(client, feed, position, entries, first, disk.log, |disk.log|);
    assert disk.log[..|disk.log|] == disk.log;
    CanStart(client, start, disk);
  }

  /** So any two histories have delivered the same entries, as far as both came. */
  lemma HistoriesDeliverAlike(
    client: Client, feed: Feed, position: Url -> nat, entries: nat -> int, start: Disk, a: seq<Life>, b: seq<Life>)
    requires start.log == [] && StartCursor(client, start).Some? && IsRow(client, feed, position, entries)
    requires Honest(client, feed, start, a) && Honest(client, feed, start, b)
    ensures var da, db := Delivered(Lives(client, start, a).log), Delivered(Lives(client, start, b).log);
      da <= db || db <= da
  {
    EntriesExactlyOnce(client, feed, position, entries, start, a);
    EntriesExactlyOnce(client, feed, position, entries, start, b);
    var first := StartCursor(client, start).value;
    SameRow(position, entries, first, Lives(client, start, a).log, Lives(client, start, b).log);
  }

  lemma SameRow(position: Url -> nat, entries: nat -> int, first: Url, a: seq<Applied>, b: seq<Applied>)
    requires DeliveredInRow(position, entries, first, a) && DeliveredInRow(position, entries, first, b)
    ensures Delivered(a) <= Delivered(b) || Delivered(b) <= Delivered(a)
  {}

  // ----- a feed that answers every request the same way

  ghost predicate IsFixed(client: Client, feed: Feed) {
    forall url, r, s :: feed(url, r) && feed(url, s) ==> ParsePage(client, r) == ParsePage(client, s)
  }

  lemma SameRequestSameStep(client: Client, feed: Feed, a: Applied, b: Applied)
    requires IsFixed(client, feed) && IsStep(client, a) && IsStep(client, b) && a.request == b.request
    requires IsServed(client, feed, a) && IsServed(client, feed, b)
    ensures a == b
  {
    var r :| feed(a.request, r) && ParsePage(client, r) == Some(a.page);
    var s :| feed(b.request, s) && ParsePage(client, s) == Some(b.page);
  }

  /** The n-th steps agree once the steps before do. */
  lemma NextStepsAgree(client: Client, feed: Feed, first: Url, a: seq<Applied>, b: seq<Applied>, n: nat)
    requires IsFixed(client, feed) && n < |a| && n < |b| && a[..n] == b[..n]
    requires a[n].request == EndOf(first, a[..n]) && b[n].request == EndOf(first, b[..n])
    requires IsStep(client, a[n]) && IsStep(client, b[n])
    requires IsServed(client, feed, a[n]) && IsServed(client, feed, b[n])
    ensures a[..n + 1] == b[..n + 1]
  {
    SameRequestSameStep(client, feed, a[n], b[n]);
    assert a[..n + 1] == a[..n] + [a[n]] && b[..n + 1] == b[..n] + [b[n]];
  }

  lemma {:induction false} ChainsAgree(
    client: Client, feed: Feed, first: Url, a: seq<Applied>, b: seq<Applied>, n: nat)
    requires IsFixed(client, feed) && IsChain(first, a) && IsChain(first, b)
    requires Served(client, feed, a) && Served(client, feed, b)
    requires forall step :: step in a || step in b ==> IsStep(client, step)
    requires n <= |a| && n <= |b|
    ensures a[..n] == b[..n]
  {
    if n > 0 {
      ChainsAgree(client, feed, first, a, b, n - 1);
      assert a[n - 1] in a && b[n - 1] in b;
      NextStepsAgree(client, feed, first, a, b, n - 1);
    }
  }

  /** Against a fixed feed, any two histories have committed the same pages in the same order, up to
      how far they came: failures and restarts cost time, never a page. */
  lemma HistoriesAgree(client: Client, feed: Feed, start: Disk, a: seq<Life>, b: seq<Life>)
    requires start.log == [] && StartCursor(client, start).Some? && IsFixed(client, feed)
    requires Honest(client, feed, start, a) && Honest(client, feed, start, b)
    ensures var la, lb := Lives(client, start, a).log, Lives(client, start, b).log; la <= lb || lb <= la
  {
    HistoryServed(client, feed, start, a);
    HistoryServed(client, feed, start, b);
    HistoriesAreChains(client, start, a);
    HistoriesAreChains(client, start, b);
    var la, lb := Lives(client, start, a).log, Lives(client, start, b).log;
    var n := if |la| <= |lb| then |la| else |lb|;
    ChainsAgree(client, feed, StartCursor(client, start).value, la, lb, n);
    assert la[..|la|] == la && lb[..|lb|] == lb;
  }

  // ----- cursors that are never passed

  /** No answer of the feed to this cursor has a link with a token. */
  ghost predicate IsStuck(client: Client, feed: Feed, cursor: Url) {
    forall raw :: feed(cursor, raw) && ParsePage(client, raw).Some? ==> !HasWayOn(ParsePage(client, raw).value)
  }

  lemma {:induction false} StuckLoop(
    client: Client, feed: Feed, untilCaughtUp: bool, disk: Disk, cursor: Url, report: Report, rounds: seq<Round>)
    requires IsStuck(client, feed, cursor) && HonestLoop(client, feed, untilCaughtUp, disk, cursor, rounds)
    ensures Loop(client, untilCaughtUp, disk, cursor, report, rounds).0 == disk
    decreases |rounds|
  {
    if rounds != [] {
      CommitsIff(client, untilCaughtUp, disk, cursor, report, rounds[0]);
      TurnIgnoresReport(client, untilCaughtUp, disk, cursor, report, NOTHING_DONE, rounds[0]);
      var t := Turn(client, untilCaughtUp, disk, cursor, report, rounds[0]);
      AgainFromSameDisk(client, untilCaughtUp, disk, cursor, report, rounds[0]);
      if t.Again? {
        StuckLoop(client, feed, untilCaughtUp, disk, cursor, t.report, rounds[1..]);
      }
    }
  }

  lemma AgainFromSameDisk(
    client: Client, untilCaughtUp: bool, disk: Disk, cursor: Url, report: Report, round: Round)
    ensures var t := Turn(client, untilCaughtUp, disk, cursor, report, round);
      t.Again? && t.disk == disk ==> t.cursor == cursor
  {
    var page := PageOf(client, round);
    if page.Some? {
      var step := StepOf(client, cursor, page.value);
      if step.Some? {
        assert |Commit(disk, step.value).log| == |disk.log| + 1;
      }
    }
  }

  lemma {:induction false} StuckForEver(client: Client, feed: Feed, disk: Disk, lives: seq<Life>)
    requires StartCursor(client, disk).Some? && IsStuck(client, feed, StartCursor(client, disk).value)
    requires Honest(client, feed, disk, lives)
    ensures Lives(client, disk, lives) == disk
  {
    if lives != [] {
      var front, last := lives[..|lives| - 1], lives[|lives| - 1];
      StuckForEver(client, feed, disk, front);
      if NeedsWork(last.untilCaughtUp, disk) {
        StuckLoop(
          client, feed, last.untilCaughtUp, disk, StartCursor(client, disk).value, NOTHING_DONE, last.rounds);
      }
    }
  }

  /** One run with one good answer. */
  function OneGoodLife(raw: RawPage): seq<Life> {
    [Life(false, [Round(false, Answered(raw), true, true, Kept, true)])]
  }

  lemma OneAnswerPasses(client: Client, feed: Feed, disk: Disk, raw: RawPage)
    requires StartCursor(client, disk).Some? && feed(StartCursor(client, disk).value, raw)
    requires ParsePage(client, raw).Some? && HasWayOn(ParsePage(client, raw).value)
    ensures Honest(client, feed, disk, OneGoodLife(raw))
    ensures |Lives(client, disk, OneGoodLife(raw)).log| == |disk.log| + 1
  {
    var lives, cursor := OneGoodLife(raw), StartCursor(client, disk).value;
    var round := lives[0].rounds[0];
    assert lives[..0] == [] && Lives(client, disk, lives[..0]) == disk;
    CommitsIff(client, false, disk, cursor, NOTHING_DONE, round);
    StepIffWayOn(client, cursor, ParsePage(client, raw).value);
    assert lives[0].rounds[1..] == [];
    assert Turn(client, false, disk, cursor, NOTHING_DONE, round).Ends?;
    assert HonestLoop(client, feed, false, disk, cursor, lives[0].rounds);
    assert Lives(client, disk, lives) == Run(client, false, disk, lives[0].rounds).0;
  }

  /** Some history gets past the durable cursor if and only if the feed has an answer to it whose
      link carries the text of an integer as its first skiptoken. */
  lemma PassableIff(client: Client, feed: Feed, disk: Disk)
    requires StartCursor(client, disk).Some?
    ensures (exists lives :: Honest(client, feed, disk, lives) && Lives(client, disk, lives) != disk)
      <==> !IsStuck(client, feed, StartCursor(client, disk).value)
  {
    if IsStuck(client, feed, StartCursor(client, disk).value) {
      forall lives | Honest(client, feed, disk, lives) ensures Lives(client, disk, lives) == disk {
        StuckForEver(client, feed, disk, lives);
      }
    } else {
      var raw :| feed(StartCursor(client, disk).value, raw) && ParsePage(client, raw).Some?
        && HasWayOn(ParsePage(client, raw).value);
      OneAnswerPasses(client, feed, disk, raw);
    }
  }

  // ----- reports

  function PagesIn(log: seq<Applied>): nat {
    if log == [] then 0 else
    PagesIn(log[..|log| - 1]) + (if log[|log| - 1].page.payloads == [] then 0 else 1)
  }

  function EntitiesIn(log: seq<Applied>): nat {
    if log == [] then 0 else EntitiesIn(log[..|log| - 1]) + |log[|log| - 1].page.payloads|
  }

  /** What a report says about the steps from one disk to another. */
  ghost predicate Accounts(before: Disk, after: Disk, report: Report, final: Report) {
    && final.pagesWritten - report.pagesWritten == PagesIn(after.log) - PagesIn(before.log)
    && final.entitiesSeen - report.entitiesSeen == EntitiesIn(after.log) - EntitiesIn(before.log)
    && (if |after.log| == |before.log| then after == before && final.latestSkiptoken == report.latestSkiptoken
        else after.row.Some? && final.latestSkiptoken == Some(after.row.value.latestSkiptoken))
  }

  lemma CommitCounts(disk: Disk, step: Applied)
    ensures var log := Commit(disk, step).log;
      && PagesIn(log) == PagesIn(disk.log) + (if step.page.payloads == [] then 0 else 1)
      && EntitiesIn(log) == EntitiesIn(disk.log) + |step.page.payloads|
  {
    assert (disk.log + [step])[..|disk.log|] == disk.log;
  }

  /** Exact if the loop goes on or returns; after a failure or a crash, at most a page short. */
  ghost predicate Told(disk: Disk, t: Turned, report: Report) {
    && |disk.log| <= |t.disk.log|
    && (t.Again? || t.exit == Returned ==> Accounts(disk, t.disk, report, t.report))
    && (t.Ends? && t.exit != Returned ==>
          t.report == report && PagesIn(disk.log) <= PagesIn(t.disk.log) <= PagesIn(disk.log) + 1)
  }

  lemma StoreCallTold(disk: Disk, step: Applied, round: Round, phase: Phase, report: Report, after: Report, stops: bool)
    requires after.pagesWritten == report.pagesWritten + (if step.page.payloads == [] then 0 else 1)
    requires after.entitiesSeen == report.entitiesSeen + |step.page.payloads|
    requires after.latestSkiptoken == Some(step.token)
    ensures Told(disk, StoreCall(disk, step, round, phase, report, after, stops), report)
  {
    CommitCounts(disk, step);
  }

  lemma TurnTold(client: Client, untilCaughtUp: bool, disk: Disk, cursor: Url, report: Report, round: Round)
    ensures Told(disk, Turn(client, untilCaughtUp, disk, cursor, report, round), report)
  {
    if !round.stop && round.reply.Answered? && ParsePage(client, round.reply.raw).Some? {
      PageTold(client, untilCaughtUp, disk, cursor, report, round, ParsePage(client, round.reply.raw).value);
    }
  }

  lemma PageTold(client: Client, untilCaughtUp: bool, disk: Disk, cursor: Url, report: Report, round: Round, page: Page)
    ensures page.payloads == [] ==>
      Told(disk, AfterEmptyPage(client, untilCaughtUp, disk, cursor, report, round, page), report)
    ensures page.payloads != [] ==> Told(disk, AfterFullPage(client, disk, cursor, report, round, page), report)
  {
    var step := StepOf(client, cursor, page);
    if step.Some? {
      if page.payloads == [] {
        StoreCallTold(disk, step.value, round, MarkingCaughtUp, report,
          report.(caughtUp := true, latestSkiptoken := Some(step.value.token)), round.stopAfter || untilCaughtUp);
      } else {
        StoreCallTold(disk, step.value, round, Writing, report, OneMorePage(report, step.value), round.stopAfter);
      }
    }
  }

  lemma AccountsChain(a: Disk, b: Disk, c: Disk, ra: Report, rb: Report, rc: Report)
    requires Accounts(a, b, ra, rb) && Accounts(b, c, rb, rc) && |a.log| <= |b.log| <= |c.log|
    ensures Accounts(a, c, ra, rc)
  {}

  /** A report counts the pages and entities committed by its run and ends with the durable
      token; after a failure or a crash at most the last page is missing from it. */
  lemma {:induction false} ReportIsExact(
    client: Client, untilCaughtUp: bool, disk: Disk, cursor: Url, report: Report, rounds: seq<Round>)
    ensures var l := Loop(client, untilCaughtUp, disk, cursor, report, rounds);
      && |disk.log| <= |l.0.log|
      && (l.1 == Returned ==> Accounts(disk, l.0, report, l.2))
      && 0 <= (PagesIn(l.0.log) - PagesIn(disk.log)) - (l.2.pagesWritten - report.pagesWritten) <= 1
    decreases |rounds|
  {
    if rounds != [] {
      TurnTold(client, untilCaughtUp, disk, cursor, report, rounds[0]);
      var t := Turn(client, untilCaughtUp, disk, cursor, report, rounds[0]);
      if t.Again? {
        ReportIsExact(client, untilCaughtUp, t.disk, t.cursor, t.report, rounds[1..]);
        var l := Loop(client, untilCaughtUp, t.disk, t.cursor, t.report, rounds[1..]);
        if l.1 == Returned {
          AccountsChain(disk, t.disk, l.0, report, t.report, l.2);
        }
      }
    }
  }

  // ----- progress

  /** Nothing goes wrong and nobody asks to stop. */
  predicate IsGood(round: Round) {
    !round.stop && round.reply.Answered? && round.parses && round.fate.Kept? && !round.stopAfter
  }

  /** The answers lead over n full pages to an empty one, every link with a token. */
  predicate EndsAfter(client: Client, rounds: seq<Round>, n: nat)
    decreases n
  {
    && rounds != [] && PageOf(client, rounds[0]).Some? && HasWayOn(PageOf(client, rounds[0]).value)
    && (if n == 0 then PageOf(client, rounds[0]).value.payloads == []
        else PageOf(client, rounds[0]).value.payloads != [] && EndsAfter(client, rounds[1..], n - 1))
  }

  ghost predicate LeadsToEmpty(client: Client, rounds: seq<Round>) {
    exists n: nat :: EndsAfter(client, rounds, n)
  }

  lemma GoodTurn(client: Client, disk: Disk, cursor: Url, report: Report, round: Round)
    requires IsGood(round)
    ensures var t, page := Turn(client, true, disk, cursor, report, round), PageOf(client, round);
      if page.None? || !HasWayOn(page.value) then t.Ends? && t.exit != Returned
      else
        && StepOf(client, cursor, page.value).Some?
        && var step := StepOf(client, cursor, page.value).value;
          t == if page.value.payloads == []
            then Ends(Commit(disk, step), Returned, report.(caughtUp := true, latestSkiptoken := Some(step.token)))
            else Again(Commit(disk, step), step.next, OneMorePage(report, step))
  {
    var page := PageOf(client, round);
    if page.Some? { StepIffWayOn(client, cursor, page.value); }
  }

  /** The row says caught up, and log and report have grown by the pages on the way. */
  ghost predicate CaughtUpAfter(disk: Disk, report: Report, l: (Disk, Exit, Report), n: nat) {
    && l.1 == Returned && l.2.caughtUp && l.2.pagesWritten == report.pagesWritten + n
    && l.0.row.Some? && l.0.row.value.caughtUp && |l.0.log| == |disk.log| + n + 1
  }

  lemma {:induction false} GoodRunCatchesUp(
    client: Client, disk: Disk, cursor: Url, report: Report, rounds: seq<Round>, n: nat)
    requires (forall r :: r in rounds ==> IsGood(r)) && EndsAfter(client, rounds, n)
    ensures CaughtUpAfter(disk, report, Loop(client, true, disk, cursor, report, rounds), n)
    decreases n
  {
    assert rounds[0] in rounds;
    GoodTurn(client, disk, cursor, report, rounds[0]);
    if n > 0 {
      var t := Turn(client, true, disk, cursor, report, rounds[0]);
      GoodRunCatchesUp(client, t.disk, t.cursor, t.report, rounds[1..], n - 1);
    }
  }

  lemma {:induction false} CaughtUpHadAWay(
    client: Client, disk: Disk, cursor: Url, report: Report, rounds: seq<Round>) returns (n: nat)
    requires forall r :: r in rounds ==> IsGood(r)
    requires Loop(client, true, disk, cursor, report, rounds).1 == Returned
    ensures EndsAfter(client, rounds, n)
    decreases |rounds|
  {
    assert rounds[0] in rounds;
    GoodTurn(client, disk, cursor, report, rounds[0]);
    var t := Turn(client, true, disk, cursor, report, rounds[0]);
    n := 0;
    if t.Again? {
      n := CaughtUpHadAWay(client, t.disk, t.cursor, t.report, rounds[1..]);
      n := n + 1;
    }
  }

  /** With nothing else in the way, a run until caught up gets there if and only if the answers lead
      to an empty page and every link on the way has a token; it commits one step per page. */
  lemma GoodRunCatchesUpIff(client: Client, disk: Disk, cursor: Url, report: Report, rounds: seq<Round>)
    requires forall r :: r in rounds ==> IsGood(r)
    ensures var l := Loop(client, true, disk, cursor, report, rounds);
      && (l.1 == Returned <==> LeadsToEmpty(client, rounds))
      && forall n: nat :: EndsAfter(client, rounds, n) ==> CaughtUpAfter(disk, report, l, n)
  {
    forall n: nat | EndsAfter(client, rounds, n)
      ensures CaughtUpAfter(disk, report, Loop(client, true, disk, cursor, report, rounds), n)
    {
      GoodRunCatchesUp(client, disk, cursor, report, rounds, n);
    }
    if Loop(client, true, disk, cursor, report, rounds).1 == Returned {
      var n := CaughtUpHadAWay(client, disk, cursor, report, rounds);
      assert LeadsToEmpty(client, rounds);
    }
  }
}
