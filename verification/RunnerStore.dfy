/** The runner over the page writer: what a payload holds decides whether its page is ever passed. */
module RunnerStore {
  import opened Wrappers
  import opened CursorUrls
  import opened SyncRunner
  import opened SyncDatabase
  import opened SyncWriterTheorems
  import WI = WriterIsolation
  import PW = ParserWriter
  import P = Payload
  import S = SyncSchema
  import W = SyncWriter

  /** The schema and parsers behind a store: what a payload parses to, and how a URL is written. */
  datatype Backing = Backing(
    lexer: P.Lexer, schemas: seq<S.EntityType>, contents: int -> Option<P.ParsedEntity>, text: Url -> string)

  /** The category is known, and the parser gives entities of it. */
  ghost predicate Serves(backing: Backing, client: Client) {
    var schema := S.EntityNamed(backing.schemas, client.category);
    && schema.Some? && S.WellFormedEntity(schema.value)
    && forall payload :: backing.contents(payload).Some? ==>
         P.WellParsed(backing.lexer, schema.value, backing.contents(payload).value)
  }

  predicate AllParse(backing: Backing, payloads: seq<int>) {
    forall payload :: payload in payloads ==> backing.contents(payload).Some?
  }

  function EntitiesOf(backing: Backing, payloads: seq<int>): seq<P.ParsedEntity> {
    if payloads == [] then [] else
    EntitiesOf(backing, payloads[..|payloads| - 1]) + EntityIn(backing, payloads[|payloads| - 1])
  }

  function EntityIn(backing: Backing, payload: int): seq<P.ParsedEntity> {
    match backing.contents(payload)
    case None => []
    case Some(entity) => [entity]
  }

  /** The page a step is written as. */
  function PageFor(backing: Backing, client: Client, step: Applied, at: int): W.Page {
    W.Page(client.category, step.token, Some(backing.text(step.next)), at, EntitiesOf(backing, step.page.payloads))
  }

  ghost predicate IsTaken(backing: Backing, client: Client, step: Applied, db: Db, at: int) {
    && RegistryInvariant(db)
    && W.PageResult(backing.lexer, backing.schemas, db, PageFor(backing, client, step, at)).Ok?
  }

  /** The writer takes the page, over some database and at some time. */
  ghost predicate IsAccepted(backing: Backing, client: Client, step: Applied) {
    exists db, at :: IsTaken(backing, client, step, db, at)
  }

  /** Every live entity has parsable UUID texts and a content length that fits. */
  predicate AllStorable(backing: Backing, client: Client, payloads: seq<int>) {
    var schema := S.EntityNamed(backing.schemas, client.category);
    && schema.Some?
    && forall payload :: payload in payloads && backing.contents(payload).Some? ==>
         var entity := backing.contents(payload).value;
         entity.deleted || PW.Storable(backing.lexer, schema.value, entity)
  }

  lemma {:induction false} EntitiesAre(backing: Backing, payloads: seq<int>)
    ensures forall e :: e in EntitiesOf(backing, payloads) <==>
      exists payload :: payload in payloads && backing.contents(payload) == Some(e)
  {
    if payloads != [] {
      var front, last := payloads[..|payloads| - 1], payloads[|payloads| - 1];
      assert payloads == front + [last];
      EntitiesAre(backing, front);
      forall e ensures e in EntitiesOf(backing, payloads) <==>
        exists payload :: payload in payloads && backing.contents(payload) == Some(e)
      {
        if backing.contents(last) == Some(e) { assert last in payloads; }
      }
    }
  }

  lemma PageForIsParsed(backing: Backing, client: Client, step: Applied, at: int)
    requires Serves(backing, client)
    ensures PW.ParsedPage(
      backing.lexer, S.EntityNamed(backing.schemas, client.category).value, PageFor(backing, client, step, at).entities)
  {
    EntitiesAre(backing, step.page.payloads);
  }

  /** Over any database and at any time, the writer takes a step's page if and only if its entities
      are storable. */
  lemma AcceptedIffStorable(backing: Backing, client: Client, step: Applied, db: Db, at: int)
    requires Serves(backing, client) && P.IsI64(step.token) && RegistryInvariant(db)
    ensures W.PageResult(backing.lexer, backing.schemas, db, PageFor(backing, client, step, at)).Ok?
      <==> AllStorable(backing, client, step.page.payloads)
    ensures IsAccepted(backing, client, step) <==> AllStorable(backing, client, step.page.payloads)
  {
    AcceptedAt(backing, client, step, db, at);
    assert IsTaken(backing, client, step, db, at)
      <==> W.PageResult(backing.lexer, backing.schemas, db, PageFor(backing, client, step, at)).Ok?;
    if other, time :| IsTaken(backing, client, step, other, time) {
      AcceptedAt(backing, client, step, other, time);
    }
  }

  lemma AcceptedAt(backing: Backing, client: Client, step: Applied, db: Db, at: int)
    requires Serves(backing, client) && P.IsI64(step.token) && RegistryInvariant(db)
    ensures W.PageResult(backing.lexer, backing.schemas, db, PageFor(backing, client, step, at)).Ok?
      <==> AllStorable(backing, client, step.page.payloads)
  {
    PageForIsParsed(backing, client, step, at);
    PW.PageAcceptedIffStorable(backing.lexer, backing.schemas, db, PageFor(backing, client, step, at));
    EntitiesAre(backing, step.page.payloads);
  }

  // ----- what the surroundings can do

  /** A round that can happen at a cursor: the feed gives the answer, the payloads parse if they do,
      and a full page is committed only if the writer takes it. */
  ghost predicate IsPossible(client: Client, feed: Feed, backing: Backing, cursor: Url, round: Round) {
    && (round.reply.Answered? ==> feed(cursor, round.reply.raw))
    && (PageOf(client, round).Some? && PageOf(client, round).value.payloads != [] ==>
          IsWritten(client, backing, cursor, PageOf(client, round).value, round))
  }

  ghost predicate IsWritten(client: Client, backing: Backing, cursor: Url, page: Page, round: Round) {
    && (round.parses <==> AllParse(backing, page.payloads))
    && (round.parses && Commits(round.fate) && StepOf(client, cursor, page).Some? ==>
          IsAccepted(backing, client, StepOf(client, cursor, page).value))
  }

  ghost predicate PossibleLoop(
    client: Client, feed: Feed, backing: Backing, untilCaughtUp: bool, disk: Disk, cursor: Url, rounds: seq<Round>)
    decreases |rounds|
  {
    rounds != [] ==>
      var t := Turn(client, untilCaughtUp, disk, cursor, NOTHING_DONE, rounds[0]);
      && IsPossible(client, feed, backing, cursor, rounds[0])
      && (t.Again? ==> PossibleLoop(client, feed, backing, untilCaughtUp, t.disk, t.cursor, rounds[1..]))
  }

  ghost predicate PossibleRun(client: Client, feed: Feed, backing: Backing, life: Life, disk: Disk) {
    StartCursor(client, disk).Some? && NeedsWork(life.untilCaughtUp, disk) ==>
      PossibleLoop(client, feed, backing, life.untilCaughtUp, disk, StartCursor(client, disk).value, life.rounds)
  }

  ghost predicate Possible(client: Client, feed: Feed, backing: Backing, start: Disk, lives: seq<Life>) {
    lives != [] ==>
      && Possible(client, feed, backing, start, lives[..|lives| - 1])
      && PossibleRun(client, feed, backing, lives[|lives| - 1], Lives(client, start, lives[..|lives| - 1]))
  }

  // ----- pages that are never passed

  /** The page can be left: its link has a token, and a full page parses and can be stored. */
  predicate CanPass(client: Client, backing: Backing, page: Page) {
    HasWayOn(page) &&
      (page.payloads == [] || (AllParse(backing, page.payloads) && AllStorable(backing, client, page.payloads)))
  }

  ghost predicate IsBlocked(client: Client, feed: Feed, backing: Backing, cursor: Url) {
    forall raw :: feed(cursor, raw) && ParsePage(client, raw).Some? ==>
      !CanPass(client, backing, ParsePage(client, raw).value)
  }

  lemma TokenIsI64(client: Client, cursor: Url, page: Page)
    requires StepOf(client, cursor, page).Some?
    ensures P.IsI64(StepOf(client, cursor, page).value.token)
    ensures StepOf(client, cursor, page).value.page == page
  {}

  /** A possible round commits nothing for a page that cannot be left. */
  lemma CommitsOnlyPassable(
    client: Client, feed: Feed, backing: Backing, untilCaughtUp: bool, disk: Disk, cursor: Url, report: Report,
    round: Round)
    requires Serves(backing, client) && IsPossible(client, feed, backing, cursor, round)
    requires Turn(client, untilCaughtUp, disk, cursor, report, round).disk != disk
    ensures PageOf(client, round).Some? && CanPass(client, backing, PageOf(client, round).value)
  {
    CommitsIff(client, untilCaughtUp, disk, cursor, report, round);
    var page := PageOf(client, round).value;
    if page.payloads != [] {
      assert IsWritten(client, backing, cursor, page, round);
      TokenIsI64(client, cursor, page);
      AcceptedIffStorable(backing, client, StepOf(client, cursor, page).value, EMPTY_DB, 0);
    }
  }

  lemma {:induction false} BlockedLoop(
    client: Client, feed: Feed, backing: Backing, untilCaughtUp: bool, disk: Disk, cursor: Url, report: Report,
    rounds: seq<Round>)
    requires Serves(backing, client) && IsBlocked(client, feed, backing, cursor)
    requires PossibleLoop(client, feed, backing, untilCaughtUp, disk, cursor, rounds)
    ensures Loop(client, untilCaughtUp, disk, cursor, report, rounds).0 == disk
    decreases |rounds|
  {
    if rounds != [] {
      var t := Turn(client, untilCaughtUp, disk, cursor, report, rounds[0]);
      if t.disk != disk {
        CommitsOnlyPassable(client, feed, backing, untilCaughtUp, disk, cursor, report, rounds[0]);
      }
      TurnIgnoresReport(client, untilCaughtUp, disk, cursor, report, NOTHING_DONE, rounds[0]);
      AgainFromSameDisk(client, untilCaughtUp, disk, cursor, report, rounds[0]);
      if t.Again? {
        BlockedLoop(client, feed, backing, untilCaughtUp, disk, cursor, t.report, rounds[1..]);
      }
    }
  }

  /** A cursor all of whose answers fail to parse or hold an unstorable entity is never passed. */
  lemma {:induction false} BlockedForEver(client: Client, feed: Feed, backing: Backing, disk: Disk, lives: seq<Life>)
    requires Serves(backing, client) && StartCursor(client, disk).Some?
    requires IsBlocked(client, feed, backing, StartCursor(client, disk).value)
    requires Possible(client, feed, backing, disk, lives)
    ensures Lives(client, disk, lives) == disk
  {
    if lives != [] {
      var front, last := lives[..|lives| - 1], lives[|lives| - 1];
      BlockedForEver(client, feed, backing, disk, front);
      if NeedsWork(last.untilCaughtUp, disk) {
        BlockedLoop(client, feed, backing, last.untilCaughtUp, disk, StartCursor(client, disk).value, NOTHING_DONE,
          last.rounds);
      }
    }
  }

  lemma GoodRoundIsPossible(client: Client, feed: Feed, backing: Backing, cursor: Url, raw: RawPage)
    requires Serves(backing, client) && feed(cursor, raw)
    requires ParsePage(client, raw).Some? && CanPass(client, backing, ParsePage(client, raw).value)
    ensures IsPossible(client, feed, backing, cursor, Round(false, Answered(raw), true, true, Kept, true))
  {
    var page := ParsePage(client, raw).value;
    if page.payloads != [] && StepOf(client, cursor, page).Some? {
      TokenIsI64(client, cursor, page);
      AcceptedIffStorable(backing, client, StepOf(client, cursor, page).value, EMPTY_DB, 0);
    }
  }

  lemma GoodLifeIsPossible(client: Client, feed: Feed, backing: Backing, disk: Disk, raw: RawPage)
    requires Serves(backing, client) && StartCursor(client, disk).Some? && feed(StartCursor(client, disk).value, raw)
    requires ParsePage(client, raw).Some? && CanPass(client, backing, ParsePage(client, raw).value)
    ensures Possible(client, feed, backing, disk, OneGoodLife(raw))
  {
    var lives, cursor := OneGoodLife(raw), StartCursor(client, disk).value;
    GoodRoundIsPossible(client, feed, backing, cursor, raw);
    assert lives[..0] == [] && Lives(client, disk, lives[..0]) == disk;
    StoppedTurnEnds(client, disk, cursor, lives[0].rounds[0]);
  }

  lemma StoppedTurnEnds(client: Client, disk: Disk, cursor: Url, round: Round)
    requires round.stopAfter
    ensures Turn(client, false, disk, cursor, NOTHING_DONE, round).Ends?
  {}

  /** Some history gets past the durable cursor if and only if the feed has an answer to it whose
      link has a token and whose payloads, if any, all parse and can be stored. */
  lemma PassableIffStorable(client: Client, feed: Feed, backing: Backing, disk: Disk)
    requires Serves(backing, client) && StartCursor(client, disk).Some?
    ensures (exists lives :: Possible(client, feed, backing, disk, lives) && Lives(client, disk, lives) != disk)
      <==> !IsBlocked(client, feed, backing, StartCursor(client, disk).value)
  {
    if IsBlocked(client, feed, backing, StartCursor(client, disk).value) {
      forall lives | Possible(client, feed, backing, disk, lives) ensures Lives(client, disk, lives) == disk {
        BlockedForEver(client, feed, backing, disk, lives);
      }
    } else {
      var raw :| feed(StartCursor(client, disk).value, raw) && ParsePage(client, raw).Some?
        && CanPass(client, backing, ParsePage(client, raw).value);
      GoodLifeIsPossible(client, feed, backing, disk, raw);
      OneAnswerPasses(client, feed, disk, raw);
    }
  }

  // ----- the database of a history

  /** The pages of the full steps of a log. */
  function WrittenPages(backing: Backing, client: Client, log: seq<Applied>, times: nat -> int): seq<W.Page> {
    if log == [] then [] else
    var last := log[|log| - 1];
    WrittenPages(backing, client, log[..|log| - 1], times)
    + (if last.page.payloads == [] then [] else [PageFor(backing, client, last, times(|log| - 1))])
  }

  /** Every full step of the log parses and can be stored. */
  ghost predicate AllPassable(client: Client, backing: Backing, log: seq<Applied>) {
    forall step :: step in log ==> CanPass(client, backing, step.page) && P.IsI64(step.token)
  }

  lemma TurnPassable(
    client: Client, feed: Feed, backing: Backing, untilCaughtUp: bool, disk: Disk, cursor: Url, report: Report,
    round: Round)
    requires Serves(backing, client) && IsPossible(client, feed, backing, cursor, round)
    requires AllPassable(client, backing, disk.log)
    ensures AllPassable(client, backing, Turn(client, untilCaughtUp, disk, cursor, report, round).disk.log)
  {
    var after := Turn(client, untilCaughtUp, disk, cursor, report, round).disk;
    if after != disk {
      CommitsOnlyPassable(client, feed, backing, untilCaughtUp, disk, cursor, report, round);
      CommitsIff(client, untilCaughtUp, disk, cursor, report, round);
      TokenIsI64(client, cursor, PageOf(client, round).value);
    }
  }

  lemma {:induction false} LoopPassable(
    client: Client, feed: Feed, backing: Backing, untilCaughtUp: bool, disk: Disk, cursor: Url, report: Report,
    rounds: seq<Round>)
    requires Serves(backing, client) && PossibleLoop(client, feed, backing, untilCaughtUp, disk, cursor, rounds)
    requires AllPassable(client, backing, disk.log)
    ensures AllPassable(client, backing, Loop(client, untilCaughtUp, disk, cursor, report, rounds).0.log)
    decreases |rounds|
  {
    if rounds != [] {
      TurnPassable(client, feed, backing, untilCaughtUp, disk, cursor, report, rounds[0]);
      TurnIgnoresReport(client, untilCaughtUp, disk, cursor, report, NOTHING_DONE, rounds[0]);
      var t := Turn(client, untilCaughtUp, disk, cursor, report, rounds[0]);
      if t.Again? {
        LoopPassable(client, feed, backing, untilCaughtUp, t.disk, t.cursor, t.report, rounds[1..]);
      }
    }
  }

  lemma {:induction false} LivesPassable(client: Client, feed: Feed, backing: Backing, start: Disk, lives: seq<Life>)
    requires Serves(backing, client) && start.log == [] && Possible(client, feed, backing, start, lives)
    ensures AllPassable(client, backing, Lives(client, start, lives).log)
  {
    if lives != [] {
      var front, last := lives[..|lives| - 1], lives[|lives| - 1];
      LivesPassable(client, feed, backing, start, front);
      var disk := Lives(client, start, front);
      if StartCursor(client, disk).Some? && NeedsWork(last.untilCaughtUp, disk) {
        LoopPassable(client, feed, backing, last.untilCaughtUp, disk, StartCursor(client, disk).value, NOTHING_DONE,
          last.rounds);
      }
    }
  }

  /** The entities of the pages, in order. */
  function AllEntities(pages: seq<W.Page>): seq<P.ParsedEntity> {
    if pages == [] then [] else AllEntities(pages[..|pages| - 1]) + pages[|pages| - 1].entities
  }

  lemma {:induction false} EntitiesAppend(backing: Backing, a: seq<int>, b: seq<int>)
    ensures EntitiesOf(backing, a + b) == EntitiesOf(backing, a) + EntitiesOf(backing, b)
    decreases |b|
  {
    if b == [] {
      assert a + b == a;
    } else {
      EntitiesAppend(backing, a, b[..|b| - 1]);
      assert (a + b)[..|a + b| - 1] == a + b[..|b| - 1];
    }
  }

  lemma OneMoreEntityPage(pages: seq<W.Page>, page: W.Page)
    ensures AllEntities(pages + [page]) == AllEntities(pages) + page.entities
  {
    assert (pages + [page])[..|pages|] == pages;
  }

  lemma OneMoreAccepted(lexer: P.Lexer, schemas: seq<S.EntityType>, pages: seq<W.Page>, page: W.Page)
    requires AllAccepted(lexer, schemas, EMPTY_DB, pages)
    requires W.PageResult(lexer, schemas, AfterPages(lexer, schemas, EMPTY_DB, pages), page).Ok?
    ensures AllAccepted(lexer, schemas, EMPTY_DB, pages + [page])
  {
    assert (pages + [page])[..|pages|] == pages;
  }

  lemma {:induction false} PassableIsWritten(
    client: Client, backing: Backing, log: seq<Applied>, times: nat -> int)
    requires Serves(backing, client) && AllPassable(client, backing, log)
    ensures AllAccepted(backing.lexer, backing.schemas, EMPTY_DB, WrittenPages(backing, client, log, times))
    ensures AllEntities(WrittenPages(backing, client, log, times)) == EntitiesOf(backing, Delivered(log))
  {
    if log != [] {
      var front, last := log[..|log| - 1], log[|log| - 1];
      assert last in log && forall step :: step in front ==> step in log;
      PassableIsWritten(client, backing, front, times);
      EntitiesAppend(backing, Delivered(front), last.page.payloads);
      var pages := WrittenPages(backing, client, front, times);
      if last.page.payloads == [] {
        assert WrittenPages(backing, client, log, times) == pages;
      } else {
        var page := PageFor(backing, client, last, times(|log| - 1));
        PagesKeepRegistryInvariant(backing.lexer, backing.schemas, EMPTY_DB, pages);
        var before := AfterPages(backing.lexer, backing.schemas, EMPTY_DB, pages);
        AcceptedAt(backing, client, last, before, times(|log| - 1));
        OneMoreAccepted(backing.lexer, backing.schemas, pages, page);
        OneMoreEntityPage(pages, page);
      }
    }
  }

  /** Under any errors, crashes and restarts: every page committed is one the writer takes where it
      comes, and the entities written are what the committed payloads parse to, in order. */
  lemma HistoryIsWritten(
    client: Client, feed: Feed, backing: Backing, start: Disk, lives: seq<Life>, times: nat -> int)
    requires Serves(backing, client) && start.log == [] && Possible(client, feed, backing, start, lives)
    ensures var log := Lives(client, start, lives).log;
      && AllAccepted(backing.lexer, backing.schemas, EMPTY_DB, WrittenPages(backing, client, log, times))
      && AllEntities(WrittenPages(backing, client, log, times)) == EntitiesOf(backing, Delivered(log))
  {
    LivesPassable(client, feed, backing, start, lives);
    PassableIsWritten(client, backing, Lives(client, start, lives).log, times);
  }

  /** Writing the page of a full step sets the writer's cursor row to the token and the link that the
      runner's durable row then has. */
  lemma CursorRowsAgree(backing: Backing, client: Client, disk: Disk, step: Applied, db: Db, at: int)
    requires step.page.payloads != []
    requires W.PageResult(backing.lexer, backing.schemas, db, PageFor(backing, client, step, at)).Ok?
    ensures var row, category := Commit(disk, step).row, S.EntityNamed(backing.schemas, client.category).value.category;
      var after := W.PageResult(backing.lexer, backing.schemas, db, PageFor(backing, client, step, at)).value;
      && row == Some(Stored(step.token, step.next, false)) && category in after.cursors
      && after.cursors[category] == CursorRow(step.token, Some(backing.text(step.next)), SyncDatabase.Running, at)
  {
    WI.CursorsAfter(backing.lexer, backing.schemas, db, PageFor(backing, client, step, at));
  }
}
