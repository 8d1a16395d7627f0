/**
 * The AEAD contexts as state machines. What OpenSSL answers is an input of each call; what it is
 * handed is recorded, so that the limits can be stated about the bytes and not only the counters.
 */
module AeadContexts {
  import Ciphers

  datatype Event = AadBytes(n: nat) | DataBytes(n: nat) | Final(ok: bool)

  datatype Failure = AlreadyFinalized | AlreadyUpdated | LimitExceeded | BufferTooSmall | TagProblem | CipherError
                   | InvalidTag | NotWholeBlocks

  datatype Outcome = Done | Refused(why: Failure)

  /** The tag given with the mode of a decryption, if any, and the least length a late tag may have. */
  datatype Direction = Encryption | Decryption(modeTag: bool, minTagLength: nat)

  datatype Call =
    | Update(n: nat, cipherOk: bool)
    | UpdateInto(n: nat, room: nat, blockSize: nat, cipherOk: bool)
    | Authenticate(n: nat, cipherOk: bool)
    | Finalize(answer: Ciphers.FinalAnswer, tagOk: bool)
    | FinalizeWithTag(tagLength: nat, setOk: bool, answer: Ciphers.FinalAnswer)

  datatype State = State(
    live: bool,            // `ctx` is there
    tagged: bool,          // `tag` is there
    updated: bool,
    bytesRemaining: nat,
    aadBytesRemaining: nat,
    given: seq<Event>)     // what OpenSSL has been handed, in order

  const MAX_ENCRYPTED_BYTES: nat := (0x80_0000_0000 - 256) / 8
  const MAX_AAD_BYTES: nat := 0x1_0000_0000_0000_0000 / 8

  function Initial(limit: nat, aadLimit: nat): State {
    State(true, false, false, limit, aadLimit, [])
  }

  /** Both `update` and `update_into`: the counter goes down before anything else can fail. */
  function CountData(s: State, n: nat): (Outcome, State) {
    if s.bytesRemaining < n then (Refused(LimitExceeded), s.(updated := true))
    else
      var counted := s.(updated := true, bytesRemaining := s.bytesRemaining - n);
      if !s.live then (Refused(AlreadyFinalized), counted) else (Done, counted)
  }

  function Hand(s: State, e: Event): State {
    s.(given := s.given + [e])
  }

  function StepOf(d: Direction, s: State, call: Call): (Outcome, State) {
    match call
    case Update(n, cipherOk) =>
      var (o, counted) := CountData(s, n);
      if o.Refused? then (o, counted)
      else (if cipherOk then Done else Refused(CipherError), Hand(counted, DataBytes(n)))
    case UpdateInto(n, room, blockSize, cipherOk) =>
      var (o, counted) := CountData(s, n);
      if o.Refused? then (o, counted)
      else if room < n + blockSize - 1 then (Refused(BufferTooSmall), counted)
      else (if cipherOk then Done else Refused(CipherError), Hand(counted, DataBytes(n)))
    case Authenticate(n, cipherOk) =>
      if !s.live then (Refused(AlreadyFinalized), s)
      else if s.updated then (Refused(AlreadyUpdated), s)
      else if s.aadBytesRemaining < n then (Refused(LimitExceeded), s)
      else
        (if cipherOk then Done else Refused(CipherError),
         Hand(s.(aadBytesRemaining := s.aadBytesRemaining - n), AadBytes(n)))
    case Finalize(answer, tagOk) =>
      if !s.live then (Refused(AlreadyFinalized), s)
      else if d.Decryption? && !d.modeTag then (Refused(TagProblem), s)
      else Conclude(d, s, answer, tagOk)
    case FinalizeWithTag(tagLength, setOk, answer) =>
      if !s.live then (Refused(AlreadyFinalized), s)
      else if d.Encryption? || d.modeTag || tagLength < d.minTagLength || tagLength > 16 then (Refused(TagProblem), s)
      else if !setOk then (Refused(CipherError), s)
      else Conclude(d, s, answer, true)
  }

  /** The last call to OpenSSL; an encryption must also read the tag before the context goes away. */
  function Conclude(d: Direction, s: State, answer: Ciphers.FinalAnswer, tagOk: bool): (Outcome, State) {
    var handed := Hand(s, Final(answer.Finished?));
    if !answer.Finished? then (Refused(FinalFailure(answer)), handed)
    else if d.Encryption? && !tagOk then (Refused(CipherError), handed)
    else (Done, handed.(live := false, tagged := d.Encryption?))
  }

  /** A failure without errors on OpenSSL's stack is a tag that does not fit. */
  function FinalFailure(answer: Ciphers.FinalAnswer): Failure
    requires answer.Failed?
  {
    if answer.withErrors then NotWholeBlocks else InvalidTag
  }

  /** A decryption whose tag does not fit ends in an invalid tag and can be ended again; any other failure is about the
      length of the data. */
  lemma TagMustFit(d: Direction, s: State, tagOk: bool, tagLength: nat)
    requires d.Decryption? && s.live
    ensures d.modeTag ==>
              && StepOf(d, s, Finalize(Ciphers.Failed(false), tagOk)).0 == Refused(InvalidTag)
              && StepOf(d, s, Finalize(Ciphers.Failed(true), tagOk)).0 == Refused(NotWholeBlocks)
              && StepOf(d, s, Finalize(Ciphers.Finished, tagOk)).0 == Done
    ensures !d.modeTag && d.minTagLength <= tagLength <= 16 ==>
              && StepOf(d, s, FinalizeWithTag(tagLength, true, Ciphers.Failed(false))).0 == Refused(InvalidTag)
              && StepOf(d, s, FinalizeWithTag(tagLength, true, Ciphers.Failed(true))).0 == Refused(NotWholeBlocks)
              && StepOf(d, s, FinalizeWithTag(tagLength, true, Ciphers.Finished)).0 == Done
    ensures StepOf(d, s, Finalize(Ciphers.Failed(false), tagOk)).1.live
    ensures StepOf(d, s, FinalizeWithTag(tagLength, true, Ciphers.Failed(false))).1.live
  {
  }

  function Run(d: Direction, s: State, calls: seq<Call>): State
    decreases |calls|
  {
    if calls == [] then s else Run(d, StepOf(d, s, calls[0]).1, calls[1..])
  }

  /** A run takes one step for each call, in their order. */
  lemma {:induction false} RunSnoc(d: Direction, s: State, calls: seq<Call>, call: Call)
    ensures Run(d, s, []) == s
    ensures Run(d, s, calls + [call]) == StepOf(d, Run(d, s, calls), call).1
    decreases |calls|
  {
    hide StepOf;
    if calls == [] {
      assert [] + [call] == [call];
    } else {
      assert (calls + [call])[1..] == calls[1..] + [call];
      RunSnoc(d, StepOf(d, s, calls[0]).1, calls[1..], call);
    }
  }

  // ---------------------------------------------------------------- safety of every run

  function DataGiven(given: seq<Event>): nat {
    if given == [] then 0
    else DataGiven(given[..|given| - 1]) + (match given[|given| - 1] case DataBytes(n) => n case _ => 0)
  }

  function AadGiven(given: seq<Event>): nat {
    if given == [] then 0
    else AadGiven(given[..|given| - 1]) + (match given[|given| - 1] case AadBytes(n) => n case _ => 0)
  }

  /** Associated data comes before all data. */
  ghost predicate AadFirst(given: seq<Event>) {
    forall i, j | 0 <= i < j < |given| && given[j].AadBytes? :: !given[i].DataBytes?
  }

  ghost predicate Safe(d: Direction, limit: nat, aadLimit: nat, s: State) {
    && DataGiven(s.given) + s.bytesRemaining <= limit
    && AadGiven(s.given) + s.aadBytesRemaining == aadLimit
    && AadFirst(s.given)
    && (!s.updated ==> !HasData(s.given))
    && (d.Encryption? ==> (s.tagged <==> !s.live))
    && (d.Decryption? ==> !s.tagged)
    && (!s.live ==> s.given != [] && s.given[|s.given| - 1] == Final(true))
  }

  lemma HandedSums(s: State, e: Event)
    ensures DataGiven(Hand(s, e).given) == DataGiven(s.given) + (match e case DataBytes(n) => n case _ => 0)
    ensures AadGiven(Hand(s, e).given) == AadGiven(s.given) + (match e case AadBytes(n) => n case _ => 0)
  {
    assert Hand(s, e).given[..|s.given|] == s.given;
  }

  ghost predicate HasData(given: seq<Event>) {
    exists i :: 0 <= i < |given| && given[i].DataBytes?
  }

  lemma HandedOrder(s: State, e: Event)
    requires AadFirst(s.given)
    ensures !(e.AadBytes? && HasData(s.given)) ==> AadFirst(Hand(s, e).given)
    ensures HasData(Hand(s, e).given) <==> HasData(s.given) || e.DataBytes?
  {
    var given := Hand(s, e).given;
    assert forall i | 0 <= i < |s.given| :: given[i] == s.given[i];
    assert given[|s.given|] == e;
  }

  lemma StepIsSafe(d: Direction, limit: nat, aadLimit: nat, s: State, call: Call)
    requires Safe(d, limit, aadLimit, s)
    ensures Safe(d, limit, aadLimit, StepOf(d, s, call).1)
  {
    hide DataGiven, AadGiven, AadFirst, HasData;
    match call {
      case Update(n, _) =>
        HandedSums(CountData(s, n).1, DataBytes(n));
        HandedOrder(CountData(s, n).1, DataBytes(n));
      case UpdateInto(n, _, _, _) =>
        HandedSums(CountData(s, n).1, DataBytes(n));
        HandedOrder(CountData(s, n).1, DataBytes(n));
      case Authenticate(n, _) =>
        if s.aadBytesRemaining >= n {
          HandedSums(s.(aadBytesRemaining := s.aadBytesRemaining - n), AadBytes(n));
          HandedOrder(s.(aadBytesRemaining := s.aadBytesRemaining - n), AadBytes(n));
        }
      case Finalize(answer, _) =>
        HandedSums(s, Final(answer.Finished?));
        HandedOrder(s, Final(answer.Finished?));
      case FinalizeWithTag(_, _, answer) =>
        HandedSums(s, Final(answer.Finished?));
        HandedOrder(s, Final(answer.Finished?));
    }
  }

  /** From creation on, whatever is called and however OpenSSL answers. */
  lemma {:induction false} EveryRunIsSafe(d: Direction, limit: nat, aadLimit: nat, s: State, calls: seq<Call>)
    requires Safe(d, limit, aadLimit, s)
    ensures Safe(d, limit, aadLimit, Run(d, s, calls))
    decreases |calls|
  {
    hide StepOf, Safe;
    if calls != [] {
      StepIsSafe(d, limit, aadLimit, s, calls[0]);
      EveryRunIsSafe(d, limit, aadLimit, StepOf(d, s, calls[0]).1, calls[1..]);
    }
  }

  lemma FromCreation(d: Direction, limit: nat, aadLimit: nat, calls: seq<Call>)
    ensures Safe(d, limit, aadLimit, Run(d, Initial(limit, aadLimit), calls))
    ensures var t := Run(d, Initial(limit, aadLimit), calls);
            && DataGiven(t.given) + t.bytesRemaining <= limit
            && AadGiven(t.given) + t.aadBytesRemaining == aadLimit
            && (forall i, j | 0 <= i < j < |t.given| && t.given[j].AadBytes? :: !t.given[i].DataBytes?)
            && (t.tagged <==> d.Encryption? && !t.live)
            && (!t.live ==> t.given != [] && t.given[|t.given| - 1] == Final(true))
  {
    EveryRunIsSafe(d, limit, aadLimit, Initial(limit, aadLimit), calls);
  }

  /** After a successful finalize nothing is handed to OpenSSL any more, and the tag stays as it is. */
  lemma {:induction false} FinalizedStays(d: Direction, s: State, calls: seq<Call>)
    requires !s.live
    ensures var t := Run(d, s, calls); t.given == s.given && t.tagged == s.tagged && !t.live
    decreases |calls|
  {
    if calls != [] {
      FinalizedStays(d, StepOf(d, s, calls[0]).1, calls[1..]);
    }
  }

  /** Once any update has been attempted, even one that was refused, no associated data is accepted. */
  lemma {:induction false} NoAadAfterUpdate(d: Direction, s: State, calls: seq<Call>)
    requires s.updated
    ensures var t := Run(d, s, calls);
            && t.updated && t.aadBytesRemaining == s.aadBytesRemaining && AadGiven(t.given) == AadGiven(s.given)
            && forall n, ok :: StepOf(d, t, Authenticate(n, ok)).0.Refused?
    decreases |calls|
  {
    if calls != [] {
      var next := StepOf(d, s, calls[0]).1;
      StepAfterUpdate(d, s, calls[0]);
      hide StepOf;
      NoAadAfterUpdate(d, next, calls[1..]);
    }
  }

  lemma StepAfterUpdate(d: Direction, s: State, call: Call)
    requires s.updated
    ensures var t := StepOf(d, s, call).1;
            t.updated && t.aadBytesRemaining == s.aadBytesRemaining && AadGiven(t.given) == AadGiven(s.given)
  {
    hide AadGiven;
    match call {
      case Update(n, _) => HandedSums(CountData(s, n).1, DataBytes(n));
      case UpdateInto(n, _, _, _) => HandedSums(CountData(s, n).1, DataBytes(n));
      case Authenticate(_, _) =>
      case Finalize(answer, _) => HandedSums(s, Final(answer.Finished?));
      case FinalizeWithTag(_, _, answer) => HandedSums(s, Final(answer.Finished?));
    }
  }

  // ---------------------------------------------------------------- the objects

  /** The fields both contexts share; `ctx` and `tag` are kept as presence only. */
  class AeadContext {
    const direction: Direction
    var ctx: bool
    var tag: bool
    var updated: bool
    var bytesRemaining: nat
    var aadBytesRemaining: nat
    ghost var given: seq<Event>

    ghost function View(): State
      reads this
    {
      State(ctx, tag, updated, bytesRemaining, aadBytesRemaining, given)
    }

    constructor (direction: Direction)
      ensures this.direction == direction
      ensures View() == Initial(68_719_476_704, 0x2000_0000_0000_0000)
      ensures View() == State(true, false, false, 68_719_476_704, 0x2000_0000_0000_0000, [])
    {
      this.direction := direction;
      ctx, tag, updated := true, false, false;
      bytesRemaining, aadBytesRemaining := MAX_ENCRYPTED_BYTES, MAX_AAD_BYTES;
      given := [];
    }

    method UpdateData(n: nat, cipherOk: bool) returns (r: Outcome)
      modifies this
      ensures (r, View()) == StepOf(direction, old(View()), Update(n, cipherOk))
    {
      updated := true;
      if bytesRemaining < n {
        return Refused(LimitExceeded);
      }
      bytesRemaining := bytesRemaining - n;
      if !ctx {
        return Refused(AlreadyFinalized);
      }
      given := given + [DataBytes(n)];
      return if cipherOk then Done else Refused(CipherError);
    }

    method UpdateDataInto(n: nat, room: nat, blockSize: nat, cipherOk: bool) returns (r: Outcome)
      modifies this
      ensures (r, View()) == StepOf(direction, old(View()), UpdateInto(n, room, blockSize, cipherOk))
    {
      updated := true;
      if bytesRemaining < n {
        return Refused(LimitExceeded);
      }
      bytesRemaining := bytesRemaining - n;
      if !ctx {
        return Refused(AlreadyFinalized);
      }
      if room < n + blockSize - 1 {
        return Refused(BufferTooSmall);
      }
      given := given + [DataBytes(n)];
      return if cipherOk then Done else Refused(CipherError);
    }

    method AuthenticateAdditionalData(n: nat, cipherOk: bool) returns (r: Outcome)
      modifies this
      ensures (r, View()) == StepOf(direction, old(View()), Authenticate(n, cipherOk))
    {
      if !ctx {
        return Refused(AlreadyFinalized);
      }
      if updated {
        return Refused(AlreadyUpdated);
      }
      if aadBytesRemaining < n {
        return Refused(LimitExceeded);
      }
      aadBytesRemaining := aadBytesRemaining - n;
      given := given + [AadBytes(n)];
      return if cipherOk then Done else Refused(CipherError);
    }

    method FinalizeContext(answer: Ciphers.FinalAnswer, tagOk: bool) returns (r: Outcome)
      modifies this
      ensures (r, View()) == StepOf(direction, old(View()), Finalize(answer, tagOk))
    {
      if !ctx {
        return Refused(AlreadyFinalized);
      }
      if direction.Decryption? && !direction.modeTag {
        return Refused(TagProblem);
      }
      given := given + [Final(answer.Finished?)];
      if !answer.Finished? {
        return Refused(FinalFailure(answer));
      }
      if direction.Encryption? {
        if !tagOk {
          return Refused(CipherError);
        }
        tag := true;
      } else {
        tag := false;
      }
      ctx := false;
      return Done;
    }

    method FinalizeContextWithTag(tagLength: nat, setOk: bool, answer: Ciphers.FinalAnswer) returns (r: Outcome)
      requires direction.Decryption?
      modifies this
      ensures (r, View()) == StepOf(direction, old(View()), FinalizeWithTag(tagLength, setOk, answer))
    {
      if !ctx {
        return Refused(AlreadyFinalized);
      }
      if direction.modeTag {
        return Refused(TagProblem);
      }
      if tagLength < direction.minTagLength {
        return Refused(TagProblem);
      } else if tagLength > 16 {
        return Refused(TagProblem);
      }
      if !setOk {
        return Refused(CipherError);
      }
      given := given + [Final(answer.Finished?)];
      if !answer.Finished? {
        return Refused(FinalFailure(answer));
      }
      ctx, tag := false, false;
      return Done;
    }
  }
}
