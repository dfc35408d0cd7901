/** Automation requests, statuses and receipts (packages/core/src/automation-types.ts). */
module AutomationTypes {
  import Utf8
  import Digest

  const PROMPT_MAX := 65536
  const PROMPT_JSON_MAX := 131074
  const REQUEST_MAX := 512
  const RETENTION_MS := 604800000
  const AHEAD_MS := 300000
  const TIME_MAX := 8640000000000000
  const SAFE_MAX := 9007199254740991

  /** `requestUuid` hashes (routine, slot); the hash is taken as injective. Other uuids name nothing here. */
  datatype Uuid = RequestUuid(routine: string, slot: int) | OtherUuid(id: nat)

  /** SHA-256 of a prompt, taken as injective. */
  datatype Hash = Sha256(text: string)

  datatype Request = Request(routine: string, slot: int, uuid: Uuid, createdAt: int, prompt: string, digest: Hash)

  datatype State = Dispatched | Consumed | AwaitingCompletion | Completed | Failed | Interrupted | Coalesced | Cancelled

  datatype Status = Status(uuid: Uuid, state: State, updatedAt: int, token: Uuid)

  datatype Outcome = Done | Blocked

  datatype Receipt = Receipt(uuid: Uuid, token: Uuid, outcome: Outcome, createdAt: int)

  datatype Code =
    | InvalidRoutine | InvalidSlot | InvalidPrompt | InvalidStatus | InvalidResolution
    | Conflict | Full | UnknownRequest | InvalidToken | CorruptStorage

  datatype Result<+T> = Ok(value: T) | Err(code: Code)

  predicate Lower(c: char) { 'a' <= c <= 'z' }

  predicate RoutineValid(routine: string) {
    1 <= |routine| <= 64 && Lower(routine[0]) && forall c :: c in routine ==> Lower(c) || '0' <= c <= '9' || c == '-'
  }

  predicate Timestamp(at: int) { 0 <= at <= TIME_MAX }

  /** The bytes `JSON.stringify` writes for one character. */
  function JsonWidth(c: char): nat {
    if c in ['"', '\\', '\n', '\r', '\t', 8 as char, 12 as char] then 2
    else if c < ' ' then 6
    else |Utf8.EncodeChar(c)|
  }

  function JsonLength(text: string): nat {
    if text == [] then 2 else JsonWidth(text[0]) + JsonLength(text[1..])
  }

  /** The length is that of the UTF-8 bytes of the JSON text. */
  lemma JsonLengthIs(text: string)
    ensures JsonLength(text) == |Utf8.Encode(Digest.Print(Digest.Str(text)))|
  {
    var body := Digest.Escape(text);
    EncodeConcat("\"" + body, "\"");
    EncodeConcat("\"", body);
    EscapeLength(text);
    assert Utf8.Encode("\"") == Utf8.EncodeChar('"') + Utf8.Encode([]);
  }

  lemma {:induction false} EncodeConcat(a: string, b: string)
    ensures Utf8.Encode(a + b) == Utf8.Encode(a) + Utf8.Encode(b)
  {
    if a == [] {
      assert a + b == b;
    } else {
      assert (a + b)[1..] == a[1..] + b;
      EncodeConcat(a[1..], b);
    }
  }

  lemma {:induction false} EscapeLength(text: string)
    ensures JsonLength(text) == 2 + |Utf8.Encode(Digest.Escape(text))|
  {
    if text != [] {
      EscapeLength(text[1..]);
      EncodeConcat(Digest.EscapeChar(text[0]), Digest.Escape(text[1..]));
      CharLength(text[0]);
    }
  }

  lemma CharLength(c: char)
    ensures JsonWidth(c) == |Utf8.Encode(Digest.EscapeChar(c))|
  {
    var s := Digest.EscapeChar(c);
    if s == [c] {
      EncodeConcat([c], []);
    } else {
      AsciiLength(s);
    }
  }

  lemma {:induction false} AsciiLength(s: string)
    requires forall c :: c in s ==> c as int < 128
    ensures |Utf8.Encode(s)| == |s|
  {
    if s != [] {
      assert s[0] in s && forall c :: c in s[1..] ==> c in s;
      AsciiLength(s[1..]);
    }
  }

  predicate PromptValid(prompt: string) {
    |Utf8.Encode(prompt)| <= PROMPT_MAX && JsonLength(prompt) <= PROMPT_JSON_MAX
  }

  predicate ValidSlot(slot: int, now: int) {
    now - RETENTION_MS <= slot <= now + AHEAD_MS
  }

  predicate Terminal(state: State) {
    state.Completed? || state.Coalesced? || state.Cancelled?
  }

  /** `automationRequest`: the request a submit at `now` proposes, or the first error. */
  function Propose(routine: string, slot: int, prompt: string, now: int): Result<Request> {
    if !RoutineValid(routine) then Err(InvalidRoutine)
    else if !Timestamp(now) || !Timestamp(slot) || !ValidSlot(slot, now) then Err(InvalidSlot)
    else if !PromptValid(prompt) then Err(InvalidPrompt)
    else Ok(Request(routine, slot, RequestUuid(routine, slot), now, prompt, Sha256(prompt)))
  }

  /** `parseAutomationRequest` on a stored payload. */
  predicate RequestParses(r: Request) {
    && RoutineValid(r.routine) && Timestamp(r.slot) && Timestamp(r.createdAt) && PromptValid(r.prompt)
    && ValidSlot(r.slot, r.createdAt) && r.uuid == RequestUuid(r.routine, r.slot) && r.digest == Sha256(r.prompt)
  }
}
