/**
 The refresh of a native (not imported) OAuth grant under the row lock, for delivery
 (packages/connectors/src/refresh.ts) and for a tool list (packages/connectors/src/catalogue-auth.ts).
 The whole request runs inside one locked edit, so edits of one row are serialised; what guards a
 forced refresh is the credential revision.
 */
module NativeRefresh {
  import opened Options
  import opened ImportedRefresh

  /** `row.seal` is the credential revision; `permitted` is a valid policy that does not block. */
  datatype Connector = Connector(oauth: bool, permitted: bool, row: Row, signedIn: bool)

  datatype Outcome = Outcome(connector: Connector, failed: map<string, nat>, sent: Option<string>)

  predicate Expired(tokens: Tokens, now: int) {
    tokens.expiresAt.Some? && tokens.expiresAt.value <= now
  }

  /** A native grant this edit looks at: the gates of `refreshLocked`. */
  predicate Considered(c: Connector, forced: Option<nat>) {
    && c.oauth && c.permitted
    && (forced.Some? ==> forced.value == c.row.seal)
    && c.row.secret.OAuth? && c.row.secret.imported.None? && c.row.secret.tokens.Some?
  }

  predicate Due(c: Connector, forced: Option<nat>, now: int) {
    Considered(c, forced) && c.row.secret.tokens.value.resource.Some?
        && (forced.Some? || Expired(c.row.secret.tokens.value, now))
  }

  function Disconnected(c: Connector, seal: nat): Connector
    requires c.row.secret.OAuth?
  {
    c.(row := Row(OAuth(None, None), seal), signedIn := false)
  }

  function Renewed(c: Connector, access: string, rotated: Option<string>, expiresAt: Option<int>, seal: nat): Connector
    requires c.row.secret.OAuth? && c.row.secret.tokens.Some?
  {
    var held := c.row.secret.tokens.value;
    c.(row :=
        Row(c.row.secret.(tokens :=
        Some(Tokens(access, if rotated.Some? then rotated else held.refreshToken, held.resource, expiresAt))), seal))
  }

  /** One locked edit: what is saved, which revision is reported as failed, which token was sent. */
  function RefreshLocked(id: string, c: Connector, forced: Option<nat>, now: int, answer: Answer, seal: nat): Outcome {
    var same := Outcome(c, map[], None);
    if !Considered(c, forced) then same
    else if c.row.secret.tokens.value.resource.None? then Outcome(Disconnected(c, seal), map[], None)
    else if !Due(c, forced, now) then same
    else if c.row.secret.tokens.value.refreshToken.None? then
      (if forced.Some? then Outcome(c, map[id := c.row.seal], None) else same)
    else
      var token := c.row.secret.tokens.value.refreshToken;
      match answer
      case Granted(access, rotated, expiresAt) => Outcome(Renewed(c, access, rotated, expiresAt, seal), map[], token)
      case InvalidGrant => Outcome(Disconnected(c, seal), map[], token)
      case Failed => Outcome(c, map[id := c.row.seal], token)
  }

  /** A native grant the catalogue's edit renews: no policy gate, and a missing resource is left alone. */
  predicate CatalogueDue(c: Connector, forced: Option<nat>, now: int) {
    && c.row.secret.OAuth? && c.row.secret.imported.None?
    && c.row.secret.tokens.Some? && c.row.secret.tokens.value.resource.Some?
    && (if forced.None? then Expired(c.row.secret.tokens.value, now) else c.row.seal == forced.value)
  }

  /** The native edit of `catalogueCredential`; it reports failures by throwing, which changes nothing stored. */
  function CatalogueLocked(c: Connector, forced: Option<nat>, now: int, answer: Answer, seal: nat): Outcome {
    if !CatalogueDue(c, forced, now) || c.row.secret.tokens.value.refreshToken.None? then Outcome(c, map[], None)
    else
      var token := c.row.secret.tokens.value.refreshToken;
      match answer
      case Granted(access, rotated, expiresAt) => Outcome(Renewed(c, access, rotated, expiresAt, seal), map[], token)
      case InvalidGrant => Outcome(Disconnected(c, seal), map[], token)
      case Failed => Outcome(c, map[], token)
  }

  class ConnectorStore {
    var connector: Connector

    constructor (connector: Connector)
      ensures this.connector == connector
    {
      this.connector := connector;
    }

    /** `refreshSecret` and `refreshedEdit` as written: early returns, with `failed` filled on the way. */
    method Refresh(id: string, forced: Option<nat>, now: int, answer: Answer, seal: nat)
      returns (failed: map<string, nat>, sent: Option<string>)
      modifies this
      ensures Outcome(connector, failed, sent) == RefreshLocked(id, old(connector), forced, now, answer, seal)
      ensures var was := old(connector);
              var held := if was.row.secret.OAuth? then was.row.secret.tokens else None;
              var looked := was.oauth && was.permitted && was.row.secret.OAuth? && was.row.secret.imported.None?
                            && held.Some? && (forced.Some? ==> forced.value == was.row.seal);
              var due := looked && held.value.resource.Some?
                         && (forced.Some? || (held.value.expiresAt.Some? && held.value.expiresAt.value <= now));
              && (sent.Some? <==> due && held.value.refreshToken.Some?)
              && (sent.Some? ==> sent == held.value.refreshToken)
              && (looked && held.value.resource.None? ==>
                    connector == Connector(was.oauth, was.permitted, Row(OAuth(None, None), seal), false))
              && (sent.Some? && answer.Granted? ==>
                    connector == Connector(was.oauth, was.permitted,
                      Row(OAuth(None, Some(Tokens(answer.access,
                                                  if answer.refreshToken.Some? then answer.refreshToken else sent,
                                                  held.value.resource, answer.expiresAt))), seal), was.signedIn))
              && (sent.Some? && answer.InvalidGrant? ==>
                    connector == Connector(was.oauth, was.permitted, Row(OAuth(None, None), seal), false))
              && ((sent.Some? && answer.Failed?) || (sent.None? && !(looked && held.value.resource.None?)) ==>
                    connector == was)
              && failed == (if (sent.Some? && answer.Failed?) || (due && sent.None? && forced.Some?)
                            then map[id := was.row.seal] else map[])
    {
      failed, sent := map[], None;
      var revision := connector.row.seal;
      if !connector.oauth || !connector.permitted { return; }
      if forced.Some? && forced.value != revision { return; }
      var secret := connector.row.secret;
      if !secret.OAuth? || secret.imported.Some? || secret.tokens.None? { return; }
      var tokens := secret.tokens.value;
      if tokens.resource.None? {
        connector := Disconnected(connector, seal);
        return;
      }
      if forced.None? && (tokens.expiresAt.None? || tokens.expiresAt.value > now) { return; }
      if tokens.refreshToken.None? {
        if forced.Some? {
          failed := failed[id := revision];
        }
        return;
      }
      sent := tokens.refreshToken;
      match answer {
        case Granted(access, rotated, expiresAt) => connector := Renewed(connector, access, rotated, expiresAt, seal);
        case InvalidGrant => connector := Disconnected(connector, seal);
        case Failed => failed := failed[id := revision];
      }
    }

    /** The native edit of `catalogueCredential` as written. */
    method CatalogueRefresh(forced: Option<nat>, now: int, answer: Answer, seal: nat) returns (sent: Option<string>)
      modifies this
      ensures Outcome(connector, map[], sent) == CatalogueLocked(old(connector), forced, now, answer, seal)
      ensures var was := old(connector);
              var held := if was.row.secret.OAuth? then was.row.secret.tokens else None;
              var due := was.row.secret.OAuth? && was.row.secret.imported.None?
                         && held.Some? && held.value.resource.Some?
                         && (if forced.Some? then forced.value == was.row.seal
                             else held.value.expiresAt.Some? && held.value.expiresAt.value <= now);
              && (sent.Some? <==> due && held.value.refreshToken.Some?)
              && (sent.Some? ==> sent == held.value.refreshToken)
              && (sent.Some? && answer.Granted? ==>
                    connector == Connector(was.oauth, was.permitted,
                      Row(OAuth(None, Some(Tokens(answer.access,
                                                  if answer.refreshToken.Some? then answer.refreshToken else sent,
                                                  held.value.resource, answer.expiresAt))), seal), was.signedIn))
              && (sent.Some? && answer.InvalidGrant? ==>
                    connector == Connector(was.oauth, was.permitted, Row(OAuth(None, None), seal), false))
              && (sent.None? || answer.Failed? ==> connector == was)
    {
      sent := None;
      var secret := connector.row.secret;
      if !secret.OAuth? || secret.imported.Some? || secret.tokens.None? { return; }
      var tokens := secret.tokens.value;
      if tokens.resource.None? { return; }
      var due := if forced.None? then Expired(tokens, now) else connector.row.seal == forced.value;
      if !due || tokens.refreshToken.None? { return; }
      sent := tokens.refreshToken;
      match answer {
        case Granted(access, rotated, expiresAt) => connector := Renewed(connector, access, rotated, expiresAt, seal);
        case InvalidGrant => connector := Disconnected(connector, seal);
        case Failed =>
      }
    }
  }

  // ---------------------------------------------------------- runs of locked edits

  datatype Edits =
    | Native(id: string, forced: Option<nat>, now: int, answer: Answer, seal: nat)
    | Catalogue(forced: Option<nat>, now: int, answer: Answer, seal: nat)
    | Elsewhere(connector: Connector)

  /** `commits` lists, for each refresh that saved something, the revision it replaced and whether it was forced. */
  datatype History = History(connector: Connector, seals: set<nat>, commits: seq<Commitment>)
  datatype Commitment = Commitment(forced: Option<nat>, revision: nat)

  /** What an edit other than another writer's does. */
  function Performed(c: Connector, edit: Edits): Outcome
    requires !edit.Elsewhere?
  {
    match edit
    case Native(id, forced, now, answer, seal) => RefreshLocked(id, c, forced, now, answer, seal)
    case Catalogue(forced, now, answer, seal) => CatalogueLocked(c, forced, now, answer, seal)
  }

  /** A reseal never repeats a revision; another writer either keeps the sealed row or reseals. */
  predicate Allowed(h: History, edit: Edits) {
    match edit
    case Native(_, _, _, _, seal) => seal !in h.seals
    case Catalogue(_, _, _, seal) => seal !in h.seals
    case Elsewhere(c) => c.row == h.connector.row || c.row.seal !in h.seals
  }

  function Apply(h: History, edit: Edits): History {
    if edit.Elsewhere? then h.(connector := edit.connector, seals := h.seals + {edit.connector.row.seal})
    else
      var next := Performed(h.connector, edit).connector;
      if next == h.connector then h
      else
        History(next, h.seals + {next.row.seal}, h.commits + [Commitment(edit.forced, h.connector.row.seal)])
  }

  function Start(c: Connector): History {
    History(c, {c.row.seal}, [])
  }

  function ApplyAll(h: History, edits: seq<Edits>): Option<History>
    decreases |edits|
  {
    if edits == [] then Some(h)
    else if Allowed(h, edits[0]) then ApplyAll(Apply(h, edits[0]), edits[1..])
    else None
  }

  /** Any refresh whose seal is fresh can come next, and any writer that keeps the sealed row or reseals it. */
  lemma {:induction false} EditsGoOn(h: History, edits: seq<Edits>, next: Edits)
    requires ApplyAll(h, edits).Some?
    requires var t := ApplyAll(h, edits).value;
      match next
      case Native(_, _, _, _, seal) => seal !in t.seals
      case Catalogue(_, _, _, seal) => seal !in t.seals
      case Elsewhere(c) => c.row == t.connector.row || c.row.seal !in t.seals
    ensures ApplyAll(h, []) == Some(h)
    ensures ApplyAll(h, edits + [next]) == Some(Apply(ApplyAll(h, edits).value, next))
    decreases |edits|
  {
    hide Apply;
    if edits == [] {
      assert ([] + [next])[1..] == [];
    } else {
      assert (edits + [next])[1..] == edits[1..] + [next];
      EditsGoOn(Apply(h, edits[0]), edits[1..], next);
    }
  }

  /** A revision that was replaced is behind: it is known, spent once, and not current. */
  ghost predicate Spent(h: History) {
    && h.connector.row.seal in h.seals
    && (forall i :: 0 <= i < |h.commits| ==>
          && h.commits[i].revision in h.seals
          && h.commits[i].revision != h.connector.row.seal
          && (h.commits[i].forced.Some? ==> h.commits[i].forced.value == h.commits[i].revision))
    && (forall i, j :: 0 <= i < j < |h.commits| ==> h.commits[i].revision != h.commits[j].revision)
  }

  lemma {:induction false} RunKeepsSpent(h: History, edits: seq<Edits>)
    requires Spent(h) && ApplyAll(h, edits).Some?
    ensures Spent(ApplyAll(h, edits).value)
    ensures h.commits <= ApplyAll(h, edits).value.commits
    decreases |edits|
  {
    if edits != [] {
      RunKeepsSpent(Apply(h, edits[0]), edits[1..]);
    }
  }

  /**
   Among any number of refreshes of one connector, whatever other writers do between them, at
   most one saves anything for each revision; so of those forced with one revision, one does.
   */
  lemma AtMostOneCommitPerRevision(c: Connector, edits: seq<Edits>, h: History, i: nat, j: nat)
    requires ApplyAll(Start(c), edits) == Some(h)
    requires i < j < |h.commits|
    ensures h.commits[i].revision != h.commits[j].revision
    ensures h.commits[i].forced.Some? ==> h.commits[j].forced != h.commits[i].forced
  {
    RunKeepsSpent(Start(c), edits);
  }

  /** Once a revision is spent, a refresh forced with it sends nothing, saves nothing and reports nothing. */
  lemma SpentRevisionIsInert(c: Connector, edits: seq<Edits>, h: History, i: nat, next: Edits)
    requires ApplyAll(Start(c), edits) == Some(h)
    requires i < |h.commits| && !next.Elsewhere? && next.forced == Some(h.commits[i].revision)
    ensures Performed(h.connector, next) == Outcome(h.connector, map[], None)
  {
    RunKeepsSpent(Start(c), edits);
  }

  /**
   The two phases of `refreshConnector`, and of `catalogueCredential`, never both act on one row: an
   imported grant is left alone by the native edit, a native one by the claim. So one call presents
   two tokens only when another writer stores a native grant between its phases.
   */
  lemma OneProtocolPerRow(c: Connector, native: Edits, now: int, forced: Option<nat>, attempt: nat)
    requires !native.Elsewhere?
    ensures ClaimEdit(c.row, now, forced, attempt).Save? ==>
              forall later: Secret, s: nat :: (later.OAuth? ==> later.imported.Some?) ==>
                Performed(c.(row := Row(later, s)), native).sent.None?
    ensures Performed(c, native) != Outcome(c, map[], None) ==> ClaimEdit(c.row, now, forced, attempt).Unchanged?
  {}

  /**
   Of two refreshes in a row that both present a token, the second presents the newest one issued:
   the rotated token if the first was granted one, else the same. None follows a dead grant.
   */
  lemma NextRefreshPresentsTheNewest(id: string, c: Connector, forced: Option<nat>, now: int, answer: Answer, seal: nat,
                                     forced': Option<nat>, now': int, answer': Answer, seal': nat)
    requires RefreshLocked(id, c, forced, now, answer, seal).sent.Some?
    ensures var first := RefreshLocked(id, c, forced, now, answer, seal);
            var second := RefreshLocked(id, first.connector, forced', now', answer', seal');
            && (answer.InvalidGrant? ==> second.sent.None? && !first.connector.signedIn)
            && (second.sent.Some? ==>
                second.sent == if answer.Granted? && answer.refreshToken.Some? then answer.refreshToken else first.sent)
            && (answer.Granted? && forced'.None? && second.sent.Some? ==>
                answer.expiresAt.Some? && answer.expiresAt.value <= now')
  {}

  /**
   The newest refresh token after an edit: another writer's, a rotated one, or the one before; none once the grant is
   dead.
   */
  function Newest(token: Option<string>, c: Connector, edit: Edits): Option<string> {
    if edit.Elsewhere? then TokenOf(edit.connector.row.secret)
    else if Performed(c, edit).sent.None? then token
    else match edit.answer
      case Granted(_, rotated, _) => if rotated.Some? then rotated else token
      case InvalidGrant => None
      case Failed => token
  }

  function NewestOf(token: Option<string>, h: History, edits: seq<Edits>): Option<string>
    decreases |edits|
  {
    if edits == [] then token else NewestOf(Newest(token, h.connector, edits[0]), Apply(h, edits[0]), edits[1..])
  }

  /**
   Over any run of deliveries, catalogue loads and other writers, what a refresh of either kind
   presents is the newest token issued, and none is after a dead grant.
   */
  lemma {:induction false} OnlyTheNewestIsPresented(h: History, edits: seq<Edits>, t: History, token: Option<string>,
                                                    next: Edits)
    requires TokenOf(h.connector.row.secret).Some? ==> token == TokenOf(h.connector.row.secret)
    requires ApplyAll(h, edits) == Some(t) && !next.Elsewhere?
    ensures Performed(t.connector, next).sent.Some? ==> Performed(t.connector, next).sent == NewestOf(token, h, edits)
    decreases |edits|
  {
    if edits != [] {
      OnlyTheNewestIsPresented(Apply(h, edits[0]), edits[1..], t, Newest(token, h.connector, edits[0]), next);
    }
  }
}
