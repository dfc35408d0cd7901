/**
 The scan of a Discord bot's channels under a budget (packages/discord-bot/src/channels.ts). The
 source may answer anything at all: pages may repeat or never end, calls may fail, the clock may jump.
 */
module ChannelScan {
  import opened Options

  const DIRECTORY_LIMIT := 5000
  const REQUEST_LIMIT := 100
  const SCAN_MS := 30_000
  const GUILD_PAGE := 20

  // ------------------------------------------------------------ channels and entries

  datatype ChannelType = DM | GroupDM | AnnouncementThread | PublicThread | PrivateThread | GuildCategory | OtherChannel

  datatype Kind = Direct | Group | Thread | Channel

  datatype Rights = Rights(viewChannel: bool, manageThreads: bool)

  datatype Metadata = Metadata(id: string, name: string, channelType: ChannelType, permissions: Option<Rights>,
      joined: bool, archived: bool)

  datatype Entry = Entry(id: string, line: string, kind: Kind, name: Option<string>)

  function KindOf(t: ChannelType): Option<Kind> {
    match t
    case DM => Some(Direct)
    case GroupDM => Some(Group)
    case AnnouncementThread => Some(Thread)
    case PublicThread => Some(Thread)
    case PrivateThread => Some(Thread)
    case GuildCategory => None
    case OtherChannel => Some(Channel)
  }

  predicate Visible(c: Metadata) {
    && c.permissions.Some? && c.permissions.value.viewChannel
    && (c.channelType != PrivateThread || c.joined || c.permissions.value.manageThreads)
  }

  function LineOf(account: string, id: string): string { "metro://discord-bot/" + account + "/" + id }

  /** A channel as the source offered it, among the bot's direct channels or in a guild. */
  datatype Offer = Offer(channel: Metadata, direct: bool)

  /** The entry an offered channel has in the directory, if it has one. */
  function EntryOf(account: string, o: Offer): Option<Entry> {
    var kind := KindOf(o.channel.channelType);
    if kind.None? || o.channel.archived then None
    else if (if o.direct then kind.value != Direct && kind.value != Group else !Visible(o.channel)) then None
    else Some(Entry(o.channel.id, LineOf(account, o.channel.id), kind.value, if o.channel.name == "" then None
        else Some(o.channel.name)))
  }

  /** Which channels the directory holds, and as what. */
  lemma ListedSpelled(account: string, o: Offer)
    ensures EntryOf(account, o).Some? <==>
              && !o.channel.archived && o.channel.channelType != GuildCategory
              && if o.direct then o.channel.channelType in {DM, GroupDM}
                 else
                   && o.channel.permissions.Some? && o.channel.permissions.value.viewChannel
                   && (o.channel.channelType == PrivateThread ==>
                       o.channel.joined || o.channel.permissions.value.manageThreads)
    ensures EntryOf(account, o).Some? ==>
              var (c, e) := (o.channel, EntryOf(account, o).value);
              && e.id == c.id && e.line == "metro://discord-bot/" + account + "/" + c.id
              && e.name == (if c.name == "" then None else Some(c.name))
              && (e.kind == Direct <==> c.channelType == DM) && (e.kind == Group <==> c.channelType == GroupDM)
              && (e.kind == Thread <==> c.channelType in {AnnouncementThread, PublicThread, PrivateThread})
  {}

  predicate HasLine(entries: seq<Entry>, line: string) { exists i :: 0 <= i < |entries| && entries[i].line == line }

  /** The directory after the offers, in the order its lines first came. */
  function Entries(account: string, offers: seq<Offer>): (r: seq<Entry>)
    ensures |r| <= |offers|
  {
    if offers == [] then []
    else
      var init, e := Entries(account, offers[..|offers| - 1]), EntryOf(account, offers[|offers| - 1]);
      if e.None? || HasLine(init, e.value.line) then init else init + [e.value]
  }

  /** Some offer has this entry, and none before it has one for its line. */
  ghost predicate FirstOffered(account: string, offers: seq<Offer>, e: Entry) {
    exists n: nat :: n < |offers| && FirstOf(account, offers, n, e)
  }

  /** One entry for each line, and it is the entry of the first offer that has one for that line. */
  lemma {:induction false} EntriesAreFirst(account: string, offers: seq<Offer>)
    ensures forall i, j :: 0 <= i < j < |Entries(account, offers)| ==>
        Entries(account, offers)[i].line != Entries(account, offers)[j].line
    ensures forall e :: e in Entries(account, offers) <==> FirstOffered(account, offers, e)
  {
    hide EntryOf, FirstOf;
    if offers == [] {
      assert forall e :: !FirstOffered(account, offers, e);
    } else {
      var init := offers[..|offers| - 1];
      EntriesAreFirst(account, init);
      hide FirstOffered;
      forall e ensures e in Entries(account, offers) <==> FirstOffered(account, offers, e) {
        LastJoins(account, init, offers, e);
        FirstJoins(account, init, offers, e);
      }
    }
  }

  lemma FirstJoins(account: string, init: seq<Offer>, offers: seq<Offer>, e: Entry)
    requires offers != [] && init == offers[..|offers| - 1]
    ensures FirstOffered(account, offers, e) <==>
        FirstOffered(account, init, e) || FirstOf(account, offers, |offers| - 1, e)
  {
    hide FirstOf;
    forall n: nat | n < |init| ensures FirstOf(account, init, n, e) <==> FirstOf(account, offers, n, e) {
      FirstKept(account, init, offers, n, e);
    }
  }

  lemma FirstKept(account: string, init: seq<Offer>, offers: seq<Offer>, n: nat, e: Entry)
    requires n < |init| && init <= offers
    ensures FirstOf(account, init, n, e) <==> FirstOf(account, offers, n, e)
  {
    hide EntryOf, LineAt;
    assert forall k :: 0 <= k < |init| ==> init[k] == offers[k];
  }

  lemma LastJoins(account: string, init: seq<Offer>, offers: seq<Offer>, e: Entry)
    requires offers != [] && init == offers[..|offers| - 1]
    ensures e in Entries(account, offers) <==> e in Entries(account, init) || FirstOf(account, offers, |offers| - 1, e)
  {
    LineHeld(account, init, e.line);
    hide EntryOf;
    assert forall k :: 0 <= k < |init| ==> init[k] == offers[k];
    assert FirstOf(account, offers, |offers| - 1, e) <==>
             EntryOf(account, offers[|offers| - 1]) == Some(e) && !HasLine(Entries(account, init), e.line);
  }

  predicate LineAt(account: string, o: Offer, line: string) {
    EntryOf(account, o).Some? && EntryOf(account, o).value.line == line
  }

  predicate FirstOf(account: string, offers: seq<Offer>, n: nat, e: Entry)
    requires n < |offers|
  {
    EntryOf(account, offers[n]) == Some(e) && forall k :: 0 <= k < n ==> !LineAt(account, offers[k], e.line)
  }

  lemma {:induction false} LineHeld(account: string, offers: seq<Offer>, line: string)
    ensures HasLine(Entries(account, offers), line) <==>
        exists k :: 0 <= k < |offers| && LineAt(account, offers[k], line)
  {
    if offers != [] {
      var n, init := |offers| - 1, offers[..|offers| - 1];
      LineHeld(account, init, line);
      var before, after := Entries(account, init), Entries(account, offers);
      assert forall i :: 0 <= i < |before| ==> after[i] == before[i];
      assert |after| > |before| ==> after[|before|] == EntryOf(account, offers[n]).value;
      assert forall k :: 0 <= k < n ==> init[k] == offers[k];
    }
  }

  // ------------------------------------------------------------ the source

  /** A remote call succeeds, is refused with 403 or 404, or fails otherwise. */
  datatype Answer<+T> = Ok(value: T) | Refused | Broken

  /** Answers are arbitrary, and may depend on when they are asked for: on the requests charged before. */
  datatype Source = Source(
    directs: seq<Metadata>,
    guilds: (Option<string>, nat) -> Answer<seq<string>>,
    guild: (string, nat) -> Answer<bool>,
    channels: (string, nat) -> Answer<seq<Metadata>>,
    threads: (string, nat) -> Answer<seq<Metadata>>,
    now: nat -> int)

  datatype RemoteCall =
    | ListGuilds(after: Option<string>) | OpenGuild(id: string)
    | ListChannels(id: string) | ListThreads(id: string)

  /** A call that was made, what had been charged by then, and the clock reading that allowed it. */
  datatype Sent = Sent(call: RemoteCall, charged: nat, reading: int)

  /** Opening a guild fetches the guild and then the bot's own membership. */
  function CostOf(call: RemoteCall): nat { if call.OpenGuild? then 2 else 1 }

  function Cost(log: seq<Sent>): nat { if log == [] then 0 else Cost(log[..|log| - 1]) + CostOf(log[|log| - 1].call) }

  function Pages(log: seq<Sent>): nat {
    if log == [] then 0 else Pages(log[..|log| - 1]) + if log[|log| - 1].call.ListGuilds? then 1 else 0
  }

  /** The guilds opened, in order. */
  function Opened(log: seq<Sent>): seq<string> {
    if log == [] then []
    else
      var init, call := Opened(log[..|log| - 1]), log[|log| - 1].call;
      if call.OpenGuild? then init + [call.id] else init
  }

  function Offers(channels: seq<Metadata>, direct: bool): (r: seq<Offer>)
    ensures |r| == |channels| && forall i :: 0 <= i < |r| ==> r[i] == Offer(channels[i], direct)
  {
    seq(|channels|, i requires 0 <= i < |channels| => Offer(channels[i], direct))
  }

  /** The page a call brought, if it asked for one and got it. */
  ghost function PageOf(source: Source, sent: Sent): seq<seq<string>> {
    if !sent.call.ListGuilds? then []
    else
      var answer := source.guilds(sent.call.after, sent.charged);
      if answer.Ok? then [answer.value] else []
  }

  /** The pages the calls brought. */
  ghost function PagesGiven(source: Source, log: seq<Sent>): seq<seq<string>> {
    if log == [] then [] else PagesGiven(source, log[..|log| - 1]) + PageOf(source, log[|log| - 1])
  }

  /** The channels a call brought. */
  ghost function ChannelsOf(source: Source, sent: Sent): seq<Offer> {
    match sent.call
    case ListChannels(id) => (var answer := source.channels(id, sent.charged);
        if answer.Ok? then Offers(answer.value, false) else [])
    case ListThreads(id) => (var answer := source.threads(id, sent.charged);
        if answer.Ok? then Offers(answer.value, false) else [])
    case _ => []
  }

  /** The channels the calls brought. */
  ghost function GivenBy(source: Source, log: seq<Sent>): seq<Offer> {
    if log == [] then [] else GivenBy(source, log[..|log| - 1]) + ChannelsOf(source, log[|log| - 1])
  }

  /** All channels offered: the direct ones, then what the calls brought. */
  ghost function AllOffered(source: Source, log: seq<Sent>): seq<Offer> {
    Offers(source.directs, true) + GivenBy(source, log)
  }

  /** Where the next page starts: after the last guild of the last page. */
  ghost function NextAfter(pages: seq<seq<string>>): Option<string> {
    if pages == [] || pages[|pages| - 1] == [] then None
    else var page := pages[|pages| - 1]; Some(page[|page| - 1])
  }

  ghost function IdsOf(ids: seq<string>): set<string> { set id | id in ids }

  ghost function IdsIn(pages: seq<seq<string>>): set<string> { set p, id | p in pages && id in p :: id }

  /** A full page that names a guild no page before it named, and does not end where the one before it did. */
  ghost predicate Advanced(before: seq<seq<string>>, page: seq<string>) {
    |page| >= 20 && Some(page[|page| - 1]) != NextAfter(before) && !(IdsOf(page) <= IdsIn(before))
  }

  /** The next page may be asked for: after the last guild of the last page, which advanced. */
  ghost predicate MayAsk(pages: seq<seq<string>>, after: Option<string>) {
    after == NextAfter(pages) && (pages == [] || Advanced(pages[..|pages| - 1], pages[|pages| - 1]))
  }

  /** The last page is full and did not advance. */
  ghost predicate Stuck(pages: seq<seq<string>>) {
    pages != [] && |pages[|pages| - 1]| >= 20 && !Advanced(pages[..|pages| - 1], pages[|pages| - 1])
  }

  /** Every page was asked for after the last guild of the page before it, which was full and advanced. */
  ghost predicate PagesFollow(source: Source, log: seq<Sent>) {
    forall i :: 0 <= i < |log| && log[i].call.ListGuilds? ==>
        MayAsk(PagesGiven(source, log[..i]), log[i].call.after)
  }

  /**
   By the time a call was made, it and all before it had been charged and nothing else, within the limits of
   requests and time.
   */
  ghost predicate Charged(log: seq<Sent>, started: int) {
    forall i :: 0 <= i < |log| ==>
        Cost(log[..i + 1]) == log[i].charged <= 100 && log[i].reading - started < 30000
  }

  lemma Made(log: seq<Sent>, sent: Sent, started: int)
    requires Charged(log, started)
    requires Cost(log) + CostOf(sent.call) == sent.charged <= REQUEST_LIMIT && sent.reading - started < SCAN_MS
    ensures Charged(log + [sent], started) && Cost(log + [sent]) == Cost(log) + CostOf(sent.call)
  {
    var after := log + [sent];
    assert after[..|log|] == log && after[..|log| + 1] == after;
    forall i | 0 <= i < |after|
        ensures Cost(after[..i + 1]) == after[i].charged <= REQUEST_LIMIT && after[i].reading - started < SCAN_MS {
      if i < |log| { assert after[..i + 1] == log[..i + 1]; }
    }
  }

  lemma Brought(source: Source, log: seq<Sent>, sent: Sent)
    ensures Pages(log + [sent]) == Pages(log) + if sent.call.ListGuilds? then 1 else 0
    ensures Opened(log + [sent]) == if sent.call.OpenGuild? then Opened(log) + [sent.call.id] else Opened(log)
    ensures PagesGiven(source, log + [sent]) == PagesGiven(source, log) + PageOf(source, sent)
    ensures GivenBy(source, log + [sent]) == GivenBy(source, log) + ChannelsOf(source, sent)
    ensures PagesFollow(source, log) ==>
              (sent.call.ListGuilds? ==> MayAsk(PagesGiven(source, log), sent.call.after)) ==>
                PagesFollow(source, log + [sent])
  {
    var after := log + [sent];
    assert after[..|log|] == log;
    assert forall i :: 0 <= i < |log| ==> after[..i] == log[..i];
  }

  lemma {:induction false} CostCounts(log: seq<Sent>)
    ensures Cost(log) == |log| + |Opened(log)| && Pages(log) + |Opened(log)| <= |log|
  {
    if log != [] { CostCounts(log[..|log| - 1]); }
  }

  // ------------------------------------------------------------ the snapshot

  datatype Reason =
    | ThreadsOmitted | DirectsCached | Budget | ScanLimit | SomeThreads
    | SomeGuilds | NotAdvancing | GuildsCutOff | NoDirectory

  /** How a step of the walk ends: it may go on, it stops, or it throws an error, refused or not. */
  datatype Outcome = GoOn | Stop | Threw(refused: bool)

  /** How a call that was made ended. */
  ghost function EndOf(source: Source, sent: Sent): Answer<bool> {
    match sent.call
    case ListGuilds(after) => EndingOf(source.guilds(after, sent.charged))
    case OpenGuild(id) => EndingOf(source.guild(id, sent.charged))
    case ListChannels(id) => EndingOf(source.channels(id, sent.charged))
    case ListThreads(id) => EndingOf(source.threads(id, sent.charged))
  }

  ghost function EndingOf<T>(answer: Answer<T>): Answer<bool> {
    match answer
    case Ok(_) => Ok(true)
    case Refused => Refused
    case Broken => Broken
  }

  /** The reason that tells of a refused call. */
  ghost predicate Told(call: RemoteCall, reasons: set<Reason>) {
    match call
    case ListGuilds(_) => GuildsCutOff in reasons || NoDirectory in reasons
    case ListThreads(_) => SomeThreads in reasons
    case _ => SomeGuilds in reasons
  }

  ghost predicate HeedsOne(source: Source, sent: Sent, reasons: set<Reason>) {
    EndOf(source, sent) == Ok(true) || (EndOf(source, sent) == Refused && Told(sent.call, reasons))
  }

  /** Every call succeeded, or was refused and the reasons tell of it; none broke. */
  ghost predicate Heeded(source: Source, log: seq<Sent>, reasons: set<Reason>) {
    forall i :: 0 <= i < |log| ==> HeedsOne(source, log[i], reasons)
  }

  /** A call for threads was refused, or one for a guild or its channels. */
  ghost predicate RefusedOne(source: Source, log: seq<Sent>, threads: bool) {
    exists i :: 0 <= i < |log| && EndOf(source, log[i]) == Refused
        && if threads then log[i].call.ListThreads? else log[i].call.OpenGuild? || log[i].call.ListChannels?
  }

  /** The last call asked for a page and was refused. */
  ghost predicate PageRefused(source: Source, log: seq<Sent>) {
    log != [] && log[|log| - 1].call.ListGuilds? && EndOf(source, log[|log| - 1]) == Refused
  }

  /** Nothing is told of refused threads or guilds unless some were refused, nor of the directory while it is walked. */
  ghost predicate Grounded(source: Source, log: seq<Sent>, reasons: set<Reason>) {
    && (SomeThreads in reasons ==> RefusedOne(source, log, true))
    && (SomeGuilds in reasons ==> RefusedOne(source, log, false))
    && GuildsCutOff !in reasons && NoDirectory !in reasons
  }

  lemma GroundedMore(source: Source, log: seq<Sent>, sent: Sent, before: set<Reason>, after: set<Reason>)
    requires Grounded(source, log, before) && GuildsCutOff !in after && NoDirectory !in after
    requires SomeThreads in after ==>
        SomeThreads in before || (sent.call.ListThreads? && EndOf(source, sent) == Refused)
    requires SomeGuilds in after ==>
        SomeGuilds in before || (!sent.call.ListThreads? && !sent.call.ListGuilds? && EndOf(source, sent) == Refused)
    ensures Grounded(source, log + [sent], after)
  {
    hide EndOf;
    var all := log + [sent];
    assert all[|log|] == sent && forall i :: 0 <= i < |log| ==> all[i] == log[i];
    assert RefusedOne(source, log, true) ==> RefusedOne(source, all, true);
    assert RefusedOne(source, log, false) ==> RefusedOne(source, all, false);
  }

  lemma Still(source: Source, log: seq<Sent>, before: set<Reason>, after: set<Reason>)
    requires Heeded(source, log, before) && before <= after
    ensures Heeded(source, log, after)
  {
    hide EndOf;
    forall i | 0 <= i < |log| ensures HeedsOne(source, log[i], after) { assert HeedsOne(source, log[i], before); }
  }

  lemma HeededMore(source: Source, log: seq<Sent>, sent: Sent, before: set<Reason>, after: set<Reason>)
    requires Heeded(source, log, before) && before <= after && HeedsOne(source, sent, after)
    ensures Heeded(source, log + [sent], after)
  {
    Still(source, log, before, after);
    hide HeedsOne;
  }

  /**
   An error is thrown exactly for the last call, when it broke, or when it was refused and it was not
   one for threads; every other call is heeded.
   */
  ghost predicate Ends(source: Source, log: seq<Sent>, reasons: set<Reason>, r: Outcome) {
    if r.Threw? then
      && log != [] && Heeded(source, log[..|log| - 1], reasons)
      && EndOf(source, log[|log| - 1]) == (if r.refused then Refused else Broken)
      && (r.refused ==> !log[|log| - 1].call.ListThreads?)
    else Heeded(source, log, reasons)
  }

  lemma EndsThrown(source: Source, log: seq<Sent>, sent: Sent, before: set<Reason>, after: set<Reason>, r: Outcome)
    requires Heeded(source, log, before) && before <= after
    requires r.Threw? && EndOf(source, sent) == (if r.refused then Refused else Broken)
        && (r.refused ==> !sent.call.ListThreads?)
    ensures Ends(source, log + [sent], after, r)
  {
    Still(source, log, before, after);
    assert (log + [sent])[..|log|] == log;
    hide HeedsOne;
  }

  ghost predicate AskedForPage(log: seq<Sent>) { log != [] && log[|log| - 1].call.ListGuilds? }

  /** A refused call that is then told of is heeded. */
  lemma RefusalTold(source: Source, log: seq<Sent>, before: set<Reason>, after: set<Reason>)
    requires Ends(source, log, before, Threw(true)) && before <= after && Told(log[|log| - 1].call, after)
    ensures Heeded(source, log, after)
    ensures !log[|log| - 1].call.ListThreads? && (!log[|log| - 1].call.ListGuilds? ==> RefusedOne(source, log, false))
  {
    assert log == log[..|log| - 1] + [log[|log| - 1]];
    HeededMore(source, log[..|log| - 1], log[|log| - 1], before, after);
  }

  function Least(a: nat, b: nat): nat { if a < b then a else b }

  /** What is scanned of the offers when more come. */
  lemma Within(before: seq<Offer>, more: seq<Offer>)
    ensures var all := before + more;
            && (|before| <= DIRECTORY_LIMIT ==> before[..Least(|before|, DIRECTORY_LIMIT)] == all[..|before|])
            && (|before| > DIRECTORY_LIMIT ==>
                all[..Least(|all|, DIRECTORY_LIMIT)] == before[..Least(|before|, DIRECTORY_LIMIT)])
            && Least(|all|, DIRECTORY_LIMIT) == if |all| <= DIRECTORY_LIMIT then |all| else DIRECTORY_LIMIT
  {
  }

  class Snapshot {
    const account: string
    const source: Source
    const started: int
    var channels: seq<Entry>
    var reasons: set<Reason>
    var scanned: nat
    var requests: nat
    var readings: nat
    var remote: bool
    ghost var reading: int
    ghost var offered: seq<Offer>
    ghost var log: seq<Sent>

    ghost predicate Valid()
      reads this
    {
      && Cost(log) <= requests <= REQUEST_LIMIT
      && Charged(log, started)
      && channels == Entries(account, offered[..Least(|offered|, DIRECTORY_LIMIT)])
      && (if |offered| <= DIRECTORY_LIMIT then scanned == |offered| else scanned > DIRECTORY_LIMIT)
      && (ScanLimit in reasons <==> |offered| > DIRECTORY_LIMIT)
    }

    constructor (account: string, source: Source)
      ensures Valid() && fresh(this)
      ensures this.account == account && this.source == source && started == source.now(0)
      ensures channels == [] && offered == [] && log == [] && !remote && scanned == requests == 0
      ensures reasons == {ThreadsOmitted, DirectsCached}
    {
      this.account, this.source, started := account, source, source.now(0);
      channels, reasons, scanned, requests, readings, remote := [], {ThreadsOmitted, DirectsCached}, 0, 0, 1, false;
      offered, log, reading := [], [], source.now(0);
    }

    /** `canFetch`: a charge is taken only while both budgets last, and a refusal is always announced. */
    method CanFetch(cost: nat) returns (ok: bool)
      requires Valid()
      modifies this
      ensures Valid() && channels == old(channels) && scanned == old(scanned) && remote == old(remote)
      ensures offered == old(offered) && log == old(log)
      ensures ok ==> requests == old(requests) + cost <= 100 && reasons == old(reasons) && reading - started < 30000
      ensures !ok ==> requests == old(requests) && reasons == old(reasons) + {Budget}
      ensures !ok ==> old(requests) + cost > 100 || reading - started >= 30000
      ensures old(On()) ==> if ok then Owed(cost) else On()
    {
      hide Entries, Charged, Heeded, RefusedOne, PagesFollow, AllOffered, Cost;
      ghost var before := reasons;
      if Heeded(source, log, before) { Still(source, log, before, before + {Budget}); }
      if requests + cost > REQUEST_LIMIT {
        reasons := reasons + {Budget};
        return false;
      }
      var at := source.now(readings);
      readings, reading := readings + 1, at;
      if at - started >= SCAN_MS {
        reasons := reasons + {Budget};
        return false;
      }
      requests := requests + cost;
      ok := true;
    }

    /** A remote call leaves: it must be charged and the clock read in time. */
    ghost method Leaves(call: RemoteCall)
      requires Valid() && Cost(log) + CostOf(call) == requests && reading - started < SCAN_MS
      requires PagesFollow(source, log) && (call.ListGuilds? ==> MayAsk(PagesGiven(source, log), call.after))
      modifies this`log
      ensures Valid() && PagesFollow(source, log) && log == old(log) + [Sent(call, requests, reading)]
      ensures Cost(log) == old(Cost(log)) + CostOf(call)
      ensures Pages(log) == old(Pages(log)) + if call.ListGuilds? then 1 else 0
      ensures Opened(log) == if call.OpenGuild? then old(Opened(log)) + [call.id] else old(Opened(log))
      ensures PagesGiven(source, log) == old(PagesGiven(source, log)) + PageOf(source, Sent(call, requests, reading))
      ensures GivenBy(source, log) == old(GivenBy(source, log)) + ChannelsOf(source, Sent(call, requests, reading))
    {
      hide Entries, Charged, Pages, Opened, Cost, PagesGiven, GivenBy, PagesFollow, PageOf, ChannelsOf, Least;
      Made(log, Sent(call, requests, reading), started);
      Brought(source, log, Sent(call, requests, reading));
      log := log + [Sent(call, requests, reading)];
    }

    /** Between the steps of the walk: what was offered is what the calls brought. */
    ghost predicate InStep()
      reads this
    {
      Valid() && offered == AllOffered(source, log) && PagesFollow(source, log) && requests == Cost(log)
    }

    /** The walk goes on: every call so far is heeded. */
    ghost predicate On()
      reads this
    {
      InStep() && Heeded(source, log, reasons) && Grounded(source, log, reasons) && NotAdvancing !in reasons
    }

    /** The walk goes on, and what was charged last is still to be used. */
    ghost predicate Owed(cost: nat)
      reads this
    {
      && Valid() && offered == AllOffered(source, log) && PagesFollow(source, log)
      && Heeded(source, log, reasons) && Grounded(source, log, reasons) && NotAdvancing !in reasons
      && requests == Cost(log) + cost
    }

    /** The walk ended a part in `r`. */
    ghost predicate Ended(r: Outcome)
      reads this
    {
      && InStep() && Ends(source, log, reasons, r) && Grounded(source, log, reasons)
      && (NotAdvancing in reasons ==> r == Stop && Stuck(PagesGiven(source, log)))
    }

    /** The pages so far. */
    ghost function Given(): seq<seq<string>>
      reads this
    {
      PagesGiven(source, log)
    }

    /** `reasons.add` */
    method Announce(reason: Reason)
      requires InStep() && reason != ScanLimit
      modifies this`reasons
      ensures InStep() && reasons == old(reasons) + {reason}
    {
      hide Entries, Charged, Cost, PagesFollow, GivenBy, Least, AllOffered;
      reasons := reasons + {reason};
    }

    /** `collect`: offers join in their order until the scan limit, which is announced when it is passed. */
    method Collect(metadata: seq<Metadata>, direct: bool) returns (ok: bool)
      requires Valid()
      modifies this
      ensures Valid() && requests == old(requests) && log == old(log) && remote == old(remote)
          && reading == old(reading)
      ensures offered == old(offered) + Offers(metadata, direct)
      ensures ok <==> metadata == [] || old(scanned) + |metadata| <= 5000
      ensures reasons == if ok then old(reasons) else old(reasons) + {ScanLimit}
    {
      hide Entries, Charged, Cost, Offers, Least;
      ghost var before := offered;
      offered := offered + Offers(metadata, direct);
      Within(before, Offers(metadata, direct));
      for i := 0 to |metadata|
        invariant scanned == old(scanned) + i && reasons == old(reasons)
        invariant requests == old(requests) && log == old(log) && remote == old(remote) && reading == old(reading)
        invariant offered == before + Offers(metadata, direct)
        invariant |before| <= DIRECTORY_LIMIT ==>
            scanned <= DIRECTORY_LIMIT && channels == Entries(account, offered[..scanned])
        invariant |before| > DIRECTORY_LIMIT ==> i == 0 && channels == old(channels)
      {
        scanned := scanned + 1;
        if scanned > DIRECTORY_LIMIT {
          reasons := reasons + {ScanLimit};
          return false;
        }
        Add(metadata[i], direct, offered[..scanned - 1]);
        assert offered[..scanned - 1] + [Offer(metadata[i], direct)] == offered[..scanned];
      }
      ok := true;
    }

    method Add(channel: Metadata, direct: bool, ghost before: seq<Offer>)
      requires channels == Entries(account, before)
      modifies this`channels
      ensures channels == Entries(account, before + [Offer(channel, direct)])
    {
      assert (before + [Offer(channel, direct)])[..|before|] == before;
      var kind := KindOf(channel.channelType);
      if kind.None? || channel.archived { return; }
      if direct {
        if kind.value != Direct && kind.value != Group { return; }
      } else {
        if !Visible(channel) { return; }
      }
      var line := LineOf(account, channel.id);
      if !HasLine(channels, line) {
        channels :=
            channels + [Entry(channel.id, line, kind.value, if channel.name == "" then None else Some(channel.name))];
      }
    }
  }

  // ------------------------------------------------------------ the walk over the guilds

  /** The second half of `collectGuild`: refused threads are omitted, another error is thrown. */
  method CollectThreads(id: string, snapshot: Snapshot) returns (r: Outcome)
    requires snapshot.On()
    modifies snapshot
    ensures snapshot.Ended(r) && snapshot.remote == old(snapshot.remote) && old(snapshot.requests) <= snapshot.requests
    ensures Pages(snapshot.log) == old(Pages(snapshot.log)) && Opened(snapshot.log) == old(Opened(snapshot.log))
    ensures snapshot.Given() == old(snapshot.Given())
    ensures old(snapshot.reasons) <= snapshot.reasons
    ensures r == Stop ==> Budget in snapshot.reasons || ScanLimit in snapshot.reasons
    ensures r != Threw(true)
  {
    hide Entries, Charged, Pages, Opened, Cost, PagesGiven, GivenBy, PagesFollow, Least, Offers, Snapshot.Valid;
    hide Heeded, HeedsOne, RefusedOne, EndOf, MayAsk, Stuck;
    ghost var source, log, before := snapshot.source, snapshot.log, snapshot.reasons;
    var ok := snapshot.CanFetch(1);
    Still(source, log, before, snapshot.reasons);
    if !ok { return Stop; }
    snapshot.Leaves(ListThreads(id));
    var threads := snapshot.source.threads(id, snapshot.requests);
    ghost var sent := Sent(ListThreads(id), snapshot.requests, snapshot.reading);
    Answered(source, sent);
    GroundedMore(source, log, sent, before, before);
    if !threads.Ok? {
      if !threads.Refused? {
        EndsThrown(source, log, sent, before, before, Threw(false));
        return Threw(false);
      }
      snapshot.Announce(SomeThreads);
      HeededMore(source, log, sent, before, snapshot.reasons);
      GroundedMore(source, log, sent, before, snapshot.reasons);
      return GoOn;
    }
    ok := snapshot.Collect(threads.value, false);
    HeededMore(source, log, sent, before, snapshot.reasons);
    r := if ok then GoOn else Stop;
  }

  method CollectGuild(id: string, snapshot: Snapshot) returns (r: Outcome)
    requires snapshot.On()
    modifies snapshot
    ensures snapshot.Ended(r) && snapshot.remote == old(snapshot.remote) && old(snapshot.requests) <= snapshot.requests
    ensures Pages(snapshot.log) == old(Pages(snapshot.log)) && Opened(snapshot.log) == old(Opened(snapshot.log))
    ensures snapshot.Given() == old(snapshot.Given())
    ensures old(snapshot.reasons) <= snapshot.reasons
    ensures r == Stop ==> Budget in snapshot.reasons || ScanLimit in snapshot.reasons
    ensures r == Threw(true) ==> snapshot.log != [] && snapshot.log[|snapshot.log| - 1].call.ListChannels?
  {
    hide Entries, Charged, Pages, Opened, Cost, PagesGiven, GivenBy, PagesFollow, Least, Offers, Snapshot.Valid;
    hide Heeded, HeedsOne, RefusedOne, EndOf, MayAsk, Stuck;
    ghost var source, log, before := snapshot.source, snapshot.log, snapshot.reasons;
    var ok := snapshot.CanFetch(1);
    Still(source, log, before, snapshot.reasons);
    if !ok { return Stop; }
    snapshot.Leaves(ListChannels(id));
    var channels := snapshot.source.channels(id, snapshot.requests);
    ghost var sent := Sent(ListChannels(id), snapshot.requests, snapshot.reading);
    Answered(source, sent);
    GroundedMore(source, log, sent, before, before);
    if !channels.Ok? {
      EndsThrown(source, log, sent, before, before, Threw(channels.Refused?));
      return Threw(channels.Refused?);
    }
    ok := snapshot.Collect(channels.value, false);
    HeededMore(source, log, sent, before, snapshot.reasons);
    if !ok { return Stop; }
    r := CollectThreads(id, snapshot);
  }

  method VisitGuild(id: string, snapshot: Snapshot) returns (r: Outcome)
    requires snapshot.Owed(2) && snapshot.reading - snapshot.started < SCAN_MS
    modifies snapshot
    ensures snapshot.Ended(r) && snapshot.remote == old(snapshot.remote) && old(snapshot.requests) <= snapshot.requests
    ensures Pages(snapshot.log) == old(Pages(snapshot.log)) && Opened(snapshot.log) == old(Opened(snapshot.log)) + [id]
    ensures snapshot.Given() == old(snapshot.Given())
    ensures old(snapshot.reasons) <= snapshot.reasons
    ensures r == Stop ==> Budget in snapshot.reasons || ScanLimit in snapshot.reasons
    ensures r != Threw(true)
  {
    hide Entries, Charged, Pages, Opened, Cost, PagesGiven, GivenBy, PagesFollow, Least, Offers, Snapshot.Valid;
    hide Heeded, HeedsOne, Ends, RefusedOne, EndOf, MayAsk, Stuck;
    ghost var source, log, before := snapshot.source, snapshot.log, snapshot.reasons;
    snapshot.Leaves(OpenGuild(id));
    var guild := snapshot.source.guild(id, snapshot.requests);
    ghost var sent := Sent(OpenGuild(id), snapshot.requests, snapshot.reading);
    Answered(source, sent);
    GroundedMore(source, log, sent, before, before);
    if guild.Ok? {
      HeededMore(source, log, sent, before, before);
      r := CollectGuild(id, snapshot);
    } else {
      r := Threw(guild.Refused?);
      EndsThrown(source, log, sent, before, before, r);
    }
    if r == Threw(true) {
      before := snapshot.reasons;
      snapshot.Announce(SomeGuilds);
      RefusalTold(source, snapshot.log, before, snapshot.reasons);
      r := GoOn;
      EndsHeeded(source, snapshot.log, snapshot.reasons, r);
    }
  }

  lemma Answered(source: Source, sent: Sent)
    ensures match sent.call
            case ListGuilds(after) => EndsAs(EndOf(source, sent), source.guilds(after, sent.charged))
            case OpenGuild(id) => EndsAs(EndOf(source, sent), source.guild(id, sent.charged))
            case ListChannels(id) => EndsAs(EndOf(source, sent), source.channels(id, sent.charged))
            case ListThreads(id) => EndsAs(EndOf(source, sent), source.threads(id, sent.charged))
    ensures forall reasons :: HeedsOne(source, sent, reasons) <==>
              EndOf(source, sent).Ok? || (EndOf(source, sent).Refused? && Told(sent.call, reasons))
  {
  }

  ghost predicate EndsAs<T>(end: Answer<bool>, answer: Answer<T>) {
    (end.Ok? <==> answer.Ok?) && (end.Refused? <==> answer.Refused?) && (end.Broken? <==> answer.Broken?)
  }

  lemma EndsHeeded(source: Source, log: seq<Sent>, reasons: set<Reason>, r: Outcome)
    requires !r.Threw?
    ensures Ends(source, log, reasons, r) <==> Heeded(source, log, reasons)
  {
  }

  /** The guilds of the pages were opened, and no others. */
  ghost predicate AllOpened(pages: seq<seq<string>>, ids: set<string>) { ids == IdsIn(pages) }

  ghost predicate NoneTwice(ids: seq<string>) { forall i, j :: 0 <= i < j < |ids| ==> ids[i] != ids[j] }

  /** The set of visited guilds is the guilds opened, each once. */
  ghost predicate Visited(log: seq<Sent>, visited: set<string>) {
    NoneTwice(Opened(log)) && visited == IdsOf(Opened(log)) && |visited| == |Opened(log)|
  }

  /** No guild opened twice, and each page but the last brought a new one. */
  ghost predicate OnceEach(log: seq<Sent>) { NoneTwice(Opened(log)) && Pages(log) <= |Opened(log)| + 1 }

  lemma VisitedOnce(log: seq<Sent>, visited: set<string>)
    requires Visited(log, visited) && Pages(log) <= |visited| + 1
    ensures OnceEach(log)
  {
  }

  /** What announces that guilds may be missing from the walk. */
  predicate CutShort(reasons: set<Reason>) {
    Budget in reasons || ScanLimit in reasons || NotAdvancing in reasons || GuildsCutOff in reasons
        || NoDirectory in reasons
  }

  /** `collectGuilds` asks for one page. */
  method AskPage(after: Option<string>, ghost visited: set<string>, snapshot: Snapshot) returns (r: Outcome,
      page: seq<string>)
    requires snapshot.On() && MayAsk(snapshot.Given(), after)
    modifies snapshot
    ensures r == Threw(true) ==> AskedForPage(snapshot.log)
    ensures snapshot.Ended(r) && old(snapshot.reasons) <= snapshot.reasons
    ensures Opened(snapshot.log) == old(Opened(snapshot.log)) && Pages(snapshot.log) <= old(Pages(snapshot.log)) + 1
    ensures old(Visited(snapshot.log, visited)) ==> Visited(snapshot.log, visited)
    ensures snapshot.Given() == old(snapshot.Given()) + if r.GoOn? then [page] else []
    ensures snapshot.remote == (r.GoOn? || old(snapshot.remote))
    ensures r == GoOn ==> snapshot.On() && old(snapshot.requests) < snapshot.requests <= REQUEST_LIMIT
    ensures r == Stop ==> CutShort(snapshot.reasons)
  {
    hide Entries, Charged, Pages, Opened, Cost, PagesGiven, GivenBy, PagesFollow, Least, NextAfter;
    hide Heeded, HeedsOne, RefusedOne, EndOf, MayAsk, Stuck;
    ghost var source, log, before := snapshot.source, snapshot.log, snapshot.reasons;
    var ok := snapshot.CanFetch(1);
    Still(source, log, before, snapshot.reasons);
    if !ok { return Stop, []; }
    snapshot.Leaves(ListGuilds(after));
    var answer := snapshot.source.guilds(after, snapshot.requests);
    ghost var sent := Sent(ListGuilds(after), snapshot.requests, snapshot.reading);
    Answered(source, sent);
    GroundedMore(source, log, sent, before, before);
    if !answer.Ok? {
      EndsThrown(source, log, sent, before, before, Threw(answer.Refused?));
      return Threw(answer.Refused?), [];
    }
    HeededMore(source, log, sent, before, before);
    snapshot.remote := true;
    return GoOn, answer.value;
  }

  lemma IdsUpTo(page: seq<string>, k: nat)
    requires k < |page|
    ensures IdsOf(page[..k + 1]) == IdsOf(page[..k]) + {page[k]}
  {
    assert page[..k + 1] == page[..k] + [page[k]];
  }

  lemma NoIds()
    ensures IdsOf([]) == {}
  {
  }

  lemma VisitedMore(log: seq<Sent>, after: seq<Sent>, visited: set<string>, id: string)
    requires Visited(log, visited) && Opened(after) == Opened(log) + [id] && id !in visited
    ensures Visited(after, visited + {id}) && |visited + {id}| == |visited| + 1
  {
    hide Opened;
    forall i | 0 <= i < |Opened(log)| ensures Opened(log)[i] != id { assert Opened(log)[i] in IdsOf(Opened(log)); }
    assert IdsOf(Opened(after)) == IdsOf(Opened(log)) + {id};
  }

  /** One page of `collectGuilds`: each guild not visited before is opened once. */
  method VisitPage(page: seq<string>, before: set<string>, snapshot: Snapshot) returns (r: Outcome,
      visited: set<string>)
    requires snapshot.On()
    requires Visited(snapshot.log, before) && Pages(snapshot.log) <= |before| + 1
    modifies snapshot
    ensures snapshot.Ended(r) && snapshot.remote == old(snapshot.remote) && old(snapshot.requests) <= snapshot.requests
    ensures old(snapshot.reasons) <= snapshot.reasons && Pages(snapshot.log) == old(Pages(snapshot.log))
    ensures snapshot.Given() == old(snapshot.Given())
    ensures OnceEach(snapshot.log)
    ensures r == Stop ==> CutShort(snapshot.reasons)
    ensures r == GoOn ==> snapshot.On() && Visited(snapshot.log, visited) && |before| <= |visited|
    ensures r == GoOn ==> visited == before + IdsOf(page)
    ensures r != Threw(true)
  {
    hide Entries, Charged, Pages, Opened, Cost, PagesGiven, GivenBy, PagesFollow, Least, AllOffered, Snapshot.Valid;
    hide Snapshot.On, Snapshot.Owed, Snapshot.Ended, Visited, OnceEach, IdsOf;
    hide Snapshot.InStep, EndOf, Heeded, Ends, NextAfter;
    NoIds();
    visited := before;
    for k := 0 to |page|
      invariant snapshot.On() && snapshot.remote == old(snapshot.remote) && old(snapshot.requests) <= snapshot.requests
      invariant old(snapshot.reasons) <= snapshot.reasons && Pages(snapshot.log) == old(Pages(snapshot.log))
      invariant snapshot.Given() == old(snapshot.Given())
      invariant Visited(snapshot.log, visited) && |before| <= |visited| && visited == before + IdsOf(page[..k])
    {
      var id := page[k];
      IdsUpTo(page, k);
      if id in visited { continue; }
      ghost var log := snapshot.log;
      InBudget(snapshot);
      VisitedOnce(snapshot.log, visited);
      var ok := snapshot.CanFetch(2);
      if !ok {
        StopsHere(snapshot);
        return Stop, visited;
      }
      visited := visited + {id};
      r := VisitGuild(id, snapshot);
      VisitedMore(log, snapshot.log, visited - {id}, id);
      VisitedOnce(snapshot.log, visited);
      if !r.GoOn? { return; }
      WentOn(snapshot);
    }
    assert page[..|page|] == page;
    VisitedOnce(snapshot.log, visited);
    StopsHere(snapshot);
    r := GoOn;
  }

  /** The walk reached a short page and opened every guild of every page. */
  ghost predicate WalkedAll(source: Source, log: seq<Sent>) {
    var pages := PagesGiven(source, log);
    pages != [] && |pages[|pages| - 1]| < 20 && AllOpened(pages, IdsOf(Opened(log)))
  }

  lemma InBudget(snapshot: Snapshot)
    requires snapshot.On()
    ensures snapshot.Valid() && snapshot.requests <= REQUEST_LIMIT
  {
  }

  lemma WentOn(snapshot: Snapshot)
    requires snapshot.Ended(GoOn)
    ensures snapshot.On()
  {
  }

  lemma StopsHere(snapshot: Snapshot)
    requires snapshot.On()
    ensures snapshot.Ended(Stop) && snapshot.Ended(GoOn)
  {
  }

  /** The walk stops because the pages do not advance. */
  method NotAdvanced(snapshot: Snapshot)
    requires snapshot.On()
    modifies snapshot`reasons
    requires Stuck(snapshot.Given())
    ensures snapshot.Ended(Stop) && old(snapshot.reasons) <= snapshot.reasons && CutShort(snapshot.reasons)
    ensures snapshot.Given() == old(snapshot.Given())
  {
    ghost var reasons := snapshot.reasons;
    snapshot.Announce(NotAdvancing);
    Still(snapshot.source, snapshot.log, reasons, snapshot.reasons);
  }

  /** Where the walk stands between two pages. */
  ghost predicate Between(snapshot: Snapshot, visited: set<string>, after: Option<string>)
    reads snapshot
  {
    && snapshot.On() && (snapshot.remote <==> snapshot.Given() != [])
    && Visited(snapshot.log, visited) && Pages(snapshot.log) <= |visited|
    && AllOpened(snapshot.Given(), visited) && MayAsk(snapshot.Given(), after)
  }

  /** How the walk is over: on a short page with every guild of every page opened, or the reasons say so. */
  ghost predicate Over(snapshot: Snapshot, r: Outcome)
    reads snapshot
  {
    && snapshot.Ended(r) && OnceEach(snapshot.log) && (snapshot.remote <==> snapshot.Given() != [])
    && (r == Threw(true) ==> AskedForPage(snapshot.log))
    && (r == Stop ==> CutShort(snapshot.reasons) || WalkedAll(snapshot.source, snapshot.log))
  }

  /** One turn of the loop of `collectGuilds`. */
  method TurnPage(after: Option<string>, visited: set<string>, snapshot: Snapshot)
    returns (r: Outcome, ids: set<string>, last: Option<string>)
    requires Between(snapshot, visited, after)
    modifies snapshot
    ensures old(snapshot.reasons) <= snapshot.reasons
    ensures if r == GoOn then Between(snapshot, ids, last) && old(snapshot.requests) < snapshot.requests
        else Over(snapshot, r)
  {
    hide Entries, Charged, Pages, Opened, Cost, PagesGiven, GivenBy, PagesFollow, Least, AllOffered;
    hide NextAfter, AllOpened, NoneTwice, IdsOf, WalkedAll, PageOf, AskedForPage, Visited, OnceEach;
    hide Snapshot.On, Snapshot.Ended, CutShort, Stuck, IdsIn;
    ghost var pages := snapshot.Given();
    assert after == NextAfter(pages);
    hide MayAsk;
    ids, last := visited, after;
    var page;
    r, page := AskPage(after, visited, snapshot);
    VisitedOnce(snapshot.log, visited);
    if !r.GoOn? { return; }
    r, ids := VisitPage(page, visited, snapshot);
    if !r.GoOn? { return; }
    PageDone(pages, page, visited, ids);
    if |ids| == |visited| { SameSize(visited, ids); }
    if |page| < GUILD_PAGE {
      StopsHere(snapshot);
      Walked(snapshot.source, snapshot.log, pages, page, ids);
      r := Stop;
    } else if |ids| == |visited| || Some(page[|page| - 1]) == after {
      NotAdvanced(snapshot);
      r := Stop;
    } else {
      last := Some(page[|page| - 1]);
    }
  }

  /** `collectGuilds`: ends for every source and opens no guild twice. */
  method CollectGuilds(snapshot: Snapshot) returns (r: Outcome)
    requires snapshot.On() && snapshot.log == [] && !snapshot.remote
    modifies snapshot
    ensures Over(snapshot, r) && r != GoOn && old(snapshot.reasons) <= snapshot.reasons
  {
    var visited: set<string> := {};
    var after: Option<string> := None;
    NothingSent(snapshot.source);
    hide Pages, PagesGiven, NextAfter, AllOpened, Visited, Snapshot.On, Over;
    while true
      invariant Between(snapshot, visited, after) && old(snapshot.reasons) <= snapshot.reasons
      decreases REQUEST_LIMIT - snapshot.requests
    {
      InBudget(snapshot);
      r, visited, after := TurnPage(after, visited, snapshot);
      if !r.GoOn? { return; }
    }
  }

  lemma PageDone(pages: seq<seq<string>>, page: seq<string>, before: set<string>, visited: set<string>)
    requires AllOpened(pages, before) && visited == before + IdsOf(page)
    ensures AllOpened(pages + [page], visited)
    ensures |page| >= GUILD_PAGE ==>
              if visited == before || Some(page[|page| - 1]) == NextAfter(pages) then Stuck(pages + [page])
              else MayAsk(pages + [page], Some(page[|page| - 1]))
  {
    var all := pages + [page];
    assert all[..|all| - 1] == pages && all[|all| - 1] == page;
    assert IdsIn(all) == IdsIn(pages) + IdsOf(page) by {
      assert forall p :: p in all <==> p in pages || p == page;
    }
  }

  lemma SameSize(before: set<string>, after: set<string>)
    requires before <= after && |before| == |after|
    ensures before == after
  {
    assert after == before + (after - before);
  }

  lemma Walked(source: Source, log: seq<Sent>, pages: seq<seq<string>>, page: seq<string>, visited: set<string>)
    requires PagesGiven(source, log) == pages + [page] && AllOpened(pages + [page], visited) && Visited(log, visited)
    requires |page| < GUILD_PAGE
    ensures WalkedAll(source, log)
  {
  }

  lemma NothingSent(source: Source)
    ensures Pages([]) == 0 && Opened([]) == [] && Cost([]) == 0
    ensures PagesGiven(source, []) == [] && GivenBy(source, []) == [] && PagesFollow(source, [])
    ensures AllOffered(source, []) == Offers(source.directs, true)
    ensures forall reasons :: Heeded(source, [], reasons)
    ensures NoneTwice([]) && Visited([], {}) && AllOpened([], {}) && MayAsk([], None)
  {
  }

  // ------------------------------------------------------------ the whole load

  /** `result`: always partial; `mixed` says that remote data is in it. */
  datatype Listing = Listing(channels: seq<Entry>, mixed: bool, reasons: set<Reason>)

  /**
   `loadDiscordChannels`, for every source: it ends, every remote call is charged before it is made
   and made in time, the charges stay within 100, at most 34 pages are asked for and each follows the
   one before, no guild is opened twice, the listing holds the first entry of every line among the
   first 5000 channels offered, and what is missing from it is announced.
   */
  method Load(account: string, source: Source) returns (r: Option<Listing>, ghost log: seq<Sent>)
    ensures Charged(log, source.now(0)) && Cost(log) == |log| + |Opened(log)| <= 100
    ensures Pages(log) <= 34 && PagesFollow(source, log) && NoneTwice(Opened(log))
    ensures r.Some? ==>
              var offered := AllOffered(source, log);
              && r.value.channels == Entries(account, if |offered| <= 5000 then offered else offered[..5000])
              && (ScanLimit in r.value.reasons <==> |offered| > 5000)
    ensures r.Some? ==> forall i, j :: 0 <= i < j < |r.value.channels| ==>
        r.value.channels[i].line != r.value.channels[j].line
    ensures r.Some? ==> |r.value.channels| <= 5000 && {ThreadsOmitted, DirectsCached} <= r.value.reasons
    ensures r.Some? ==> (r.value.mixed <==> PagesGiven(source, log) != [])
    ensures r.Some? && r.value.reasons !! {Budget, ScanLimit, NotAdvancing, GuildsCutOff, NoDirectory} ==>
        WalkedAll(source, log)
    ensures r.Some? ==> Heeded(source, log, r.value.reasons)
    ensures r.Some? ==> ToldExactly(source, log, r.value.reasons)
    ensures r.None? <==> exists i :: 0 <= i < |log| && EndOf(source, log[i]) == Broken
  {
    NothingSent(source);
    hide Entries, Charged, Pages, Opened, Cost, PagesGiven, GivenBy, PagesFollow, WalkedAll, Snapshot.Valid;
    hide Heeded, Ends, EndOf, AskedForPage, AllOffered, Least, NoneTwice, Offers, ToldExactly, Stuck, Grounded;
    var snapshot := new Snapshot(account, source);
    var ok := snapshot.Collect(source.directs, true);
    assert snapshot.offered == AllOffered(source, []);
    NothingToTell(source, snapshot.reasons);
    if ok {
      var outcome := CollectGuilds(snapshot);
      ghost var told := snapshot.reasons;
      if outcome == Threw(true) {
        snapshot.Announce(if snapshot.remote then GuildsCutOff else NoDirectory);
      }
      Ending(source, snapshot.log, told, snapshot.reasons, outcome);
      if outcome == Threw(false) {
        Listed(snapshot);
        return None, snapshot.log;
      }
      TellsExactly(source, snapshot.log, told, snapshot.reasons, outcome);
    }
    log := snapshot.log;
    Listed(snapshot);
    NoneBroke(source, log, snapshot.reasons);
    r := Some(Listing(snapshot.channels, snapshot.remote, snapshot.reasons));
  }

  /** The walk broke exactly at its last call; a refused page is told of. */
  lemma Ending(source: Source, log: seq<Sent>, told: set<Reason>, reasons: set<Reason>, r: Outcome)
    requires Ends(source, log, told, r) && told <= reasons
    requires r == Threw(true) ==> AskedForPage(log) && (GuildsCutOff in reasons || NoDirectory in reasons)
    ensures r == Threw(false) ==> exists i :: 0 <= i < |log| && EndOf(source, log[i]) == Broken
    ensures r != Threw(false) ==> Heeded(source, log, reasons)
  {
    hide EndOf;
    if r == Threw(false) {
      assert EndOf(source, log[|log| - 1]) == Broken;
    } else if r == Threw(true) {
      RefusalTold(source, log, told, reasons);
    } else {
      Still(source, log, told, reasons);
    }
  }

  /** What is announced was refused, and what was refused is announced; a walk that did not advance was stuck. */
  ghost predicate ToldExactly(source: Source, log: seq<Sent>, reasons: set<Reason>) {
    && (SomeThreads in reasons <==> RefusedOne(source, log, true))
    && (SomeGuilds in reasons <==> RefusedOne(source, log, false))
    && (GuildsCutOff in reasons <==> PageRefused(source, log) && PagesGiven(source, log) != [])
    && (NoDirectory in reasons <==> PageRefused(source, log) && PagesGiven(source, log) == [])
    && (NotAdvancing in reasons ==> Stuck(PagesGiven(source, log)))
  }

  lemma NothingToTell(source: Source, reasons: set<Reason>)
    requires reasons <= {ThreadsOmitted, DirectsCached, ScanLimit}
    ensures ToldExactly(source, [], reasons) && Grounded(source, [], reasons)
  {
  }

  /** The reasons after the walk: those it gave, and for a page that was refused whether others came before it. */
  lemma TellsExactly(source: Source, log: seq<Sent>, told: set<Reason>, reasons: set<Reason>, r: Outcome)
    requires Ends(source, log, told, r) && Grounded(source, log, told) && r != Threw(false)
    requires NotAdvancing in told ==> Stuck(PagesGiven(source, log))
    requires r != Threw(true) ==> reasons == told
    requires r == Threw(true) ==>
        AskedForPage(log) && reasons == told + {if PagesGiven(source, log) != [] then GuildsCutOff else NoDirectory}
    requires Heeded(source, log, reasons)
    ensures ToldExactly(source, log, reasons)
  {
    hide EndOf, PagesGiven, Stuck;
    assert r != Threw(true) && log != [] ==> HeedsOne(source, log[|log| - 1], told);
    if RefusedOne(source, log, true) {
      var i :| 0 <= i < |log| && EndOf(source, log[i]) == Refused && log[i].call.ListThreads?;
      assert HeedsOne(source, log[i], reasons);
    }
    if RefusedOne(source, log, false) {
      var i :| 0 <= i < |log| && EndOf(source, log[i]) == Refused
          && (log[i].call.OpenGuild? || log[i].call.ListChannels?);
      assert HeedsOne(source, log[i], reasons);
    }
  }

  lemma NoneBroke(source: Source, log: seq<Sent>, reasons: set<Reason>)
    requires Heeded(source, log, reasons)
    ensures forall i :: 0 <= i < |log| ==> EndOf(source, log[i]) != Broken
  {
    hide EndOf;
    forall i | 0 <= i < |log| ensures EndOf(source, log[i]) != Broken { assert HeedsOne(source, log[i], reasons); }
  }

  /** What a snapshot holds at any time. */
  lemma Listed(s: Snapshot)
    requires s.Valid()
    ensures Charged(s.log, s.started) && Cost(s.log) == |s.log| + |Opened(s.log)| <= 100
    ensures s.channels == Entries(s.account, if |s.offered| <= 5000 then s.offered else s.offered[..5000])
    ensures forall i, j :: 0 <= i < j < |s.channels| ==> s.channels[i].line != s.channels[j].line
    ensures Pages(s.log) <= |Opened(s.log)| + 1 ==> Pages(s.log) <= 34
    ensures |s.channels| <= 5000 && (ScanLimit in s.reasons <==> |s.offered| > 5000)
  {
    hide Cost, Entries;
    CostCounts(s.log);
    if Pages(s.log) <= |Opened(s.log)| + 1 { PagesBounded(s.log); }
    AllOfThem(s.offered);
    EntriesAreFirst(s.account, s.offered[..Least(|s.offered|, DIRECTORY_LIMIT)]);
  }

  lemma AllOfThem(offered: seq<Offer>)
    ensures offered[..Least(|offered|, DIRECTORY_LIMIT)] == if |offered| <= 5000 then offered else offered[..5000]
  {}

  /** Pages that each bring a new guild, and one more: within a hundred requests there are at most 34. */
  lemma PagesBounded(log: seq<Sent>)
    requires Cost(log) <= REQUEST_LIMIT && Pages(log) <= |Opened(log)| + 1
    ensures Pages(log) <= 34
  {
    CostCounts(log);
  }
}
