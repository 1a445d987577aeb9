/**
 * The `DAut` command, which asks the mixer to run an automatic transition
 * on one mix-effect bus. Its payload is the bus index followed by three
 * padding bytes; the index must lie in 0..3.
 */
module AutoTransition {
  import opened Wrappers
  import opened AtemUtil

  /** The highest mix-effect bus index `deserialize` accepts. */
  const MaxMixEffect := 3

  /**
   * A JavaScript number stored into a `Buffer`: only its low 8 bits are kept,
   * and `undefined` becomes 0.
   */
  function ToUint8(v: Option<int>): (b: Byte)
    ensures v.None? ==> b == 0
    ensures v.Some? && 0 <= v.value < 256 ==> b == v.value
    ensures v.Some? ==> (v.value - b) % 256 == 0
  {
    match v
    case None => 0
    case Some(n) => n % 256
  }

  /** What `serialize` builds from the `mixEffect` field: the wire name, the bus index, three zero bytes. */
  function SerializeMixEffect(mixEffect: Option<int>): (bytes: seq<Byte>)
    ensures |bytes| == 8
    ensures bytes[..4] == [0x44, 0x41, 0x75, 0x74]
    ensures bytes[4] == ToUint8(mixEffect)
    ensures bytes[5..] == [0, 0, 0]
  {
    AsciiEncodesOneBytePerChar("DAut");
    Utf8Encode("DAut") + [ToUint8(mixEffect), 0x00, 0x00, 0x00]
  }

  /**
   * What `deserialize` does to the `mixEffect` field: its new value, or the
   * error thrown before it is assigned. Only the first payload byte is read;
   * an empty payload reads `undefined`, which passes both range comparisons
   * and is stored.
   */
  function DeserializeMixEffect(rawCommand: seq<Byte>): (r: Result<Option<int>, ParseError>)
    ensures |rawCommand| == 0 ==> r == Ok(None)
    ensures |rawCommand| > 0 ==> (r.Ok? <==> rawCommand[0] <= MaxMixEffect)
    ensures |rawCommand| > 0 && r.Ok? ==> r.value == Some(rawCommand[0] as int)
    ensures |rawCommand| > 0 && r.Err? ==> r.error == NumberTooBig(rawCommand[0] as int, MaxMixEffect)
  {
    if |rawCommand| == 0 then Ok(None)
    else
      match ParseNumberBetween(rawCommand[0], 0, MaxMixEffect)
      case Ok(v) => Ok(Some(v))
      case Err(e) => Err(e)
  }

  /** The outcome of `deserialize` depends on the first payload byte alone. */
  lemma DeserializeReadsOnlyFirstByte(a: seq<Byte>, b: seq<Byte>)
    requires |a| > 0 && |b| > 0 && a[0] == b[0]
    ensures DeserializeMixEffect(a) == DeserializeMixEffect(b)
  {
  }

  /** Round trip: for a bus index in 0..3, the payload of `serialize` deserializes to the same index. */
  lemma RoundTrip(m: int)
    requires 0 <= m <= MaxMixEffect
    ensures DeserializeMixEffect(SerializeMixEffect(Some(m))[4..]) == Ok(Some(m))
  {
  }

  /**
   * For any field value, deserializing the serialized payload yields the byte
   * that was written: `undefined` comes back as 0, and an index outside
   * 0..255 comes back truncated, or is refused when the truncated byte exceeds 3.
   */
  lemma RoundTripAnyValue(v: Option<int>)
    ensures var b := ToUint8(v);
      DeserializeMixEffect(SerializeMixEffect(v)[4..])
      == if b <= MaxMixEffect then Ok(Some(b as int)) else Err(NumberTooBig(b, MaxMixEffect))
  {
  }

  /** Bus 2 serializes to "DAut" 02 00 00 00; a payload holding index 4 is refused as too big. */
  lemma SerializeExamples()
    ensures SerializeMixEffect(Some(2)) == [0x44, 0x41, 0x75, 0x74, 0x02, 0x00, 0x00, 0x00]
    ensures DeserializeMixEffect(SerializeMixEffect(Some(4))[4..]) == Err(NumberTooBig(4, 3))
  {
  }

  /** An auto-transition command, as the client builds it (outbound) or decodes it (inbound). */
  class AutoTransitionCommand {
    /** The 4-byte wire name. */
    const rawName: string := "DAut"

    /** The mix-effect bus index; `None` until assigned (JavaScript `undefined`). */
    var mixEffect: Option<int>

    constructor ()
      ensures mixEffect == None
    {
      mixEffect := None;
    }

    /**
     * `deserialize`: on success `mixEffect` takes the decoded value; when the
     * range check throws, `mixEffect` keeps its previous value.
     */
    method Deserialize(rawCommand: seq<Byte>) returns (outcome: Outcome<ParseError>)
      modifies this
      ensures match DeserializeMixEffect(rawCommand)
        case Ok(v) => outcome == Pass && mixEffect == v
        case Err(e) => outcome == Fail(e) && mixEffect == old(mixEffect)
    {
      if |rawCommand| == 0 {
        // rawCommand[0] is undefined, which is neither > 3 nor < 0
        mixEffect := None;
        return Pass;
      }
      var parsed := ParseNumberBetween(rawCommand[0], 0, MaxMixEffect);
      match parsed {
        case Ok(v) =>
          mixEffect := Some(v);
          outcome := Pass;
        case Err(e) =>
          outcome := Fail(e);
      }
    }

    /** `serialize`: eight bytes that start with the wire name and depend on `mixEffect` alone. */
    function Serialize(): (bytes: seq<Byte>)
      reads this
      ensures bytes == SerializeMixEffect(mixEffect)
      ensures bytes[..4] == Utf8Encode(rawName)
    {
      AsciiEncodesOneBytePerChar(rawName);
      SerializeMixEffect(mixEffect)
    }

    /** `applyToState`: this command changes nothing in the mirrored device state. */
    function ApplyToState<S>(state: S): (next: S)
      ensures next == state
    {
      state
    }
  }

  /** `applyToState` applied `n` times in a row. */
  function ApplyRepeatedly<S>(command: AutoTransitionCommand, state: S, n: nat): S
  {
    if n == 0 then state else command.ApplyToState(ApplyRepeatedly(command, state, n - 1))
  }

  /** Applying the command any number of times leaves the state as it was. */
  lemma {:induction false} ApplyToStateIdempotent<S>(command: AutoTransitionCommand, state: S, n: nat)
    ensures ApplyRepeatedly(command, state, n) == state
  {
    if n > 0 {
      ApplyToStateIdempotent(command, state, n - 1);
    }
  }

  /** Applying the command twice leaves the same state as applying it once. */
  lemma ApplyToStateTwiceIsOnce<S>(command: AutoTransitionCommand, state: S)
    ensures command.ApplyToState(command.ApplyToState(state)) == command.ApplyToState(state)
  {
  }

  /** A command serialized by one client object and deserialized by a fresh one carries the same bus index. */
  method TransmitMixEffect(m: int) returns (outcome: Outcome<ParseError>, received: Option<int>)
    requires 0 <= m <= MaxMixEffect
    ensures outcome == Pass && received == Some(m)
  {
    var sent := new AutoTransitionCommand();
    sent.mixEffect := Some(m);
    var bytes := sent.Serialize();
    RoundTrip(m);
    var decoder := new AutoTransitionCommand();
    outcome := decoder.Deserialize(bytes[4..]);
    received := decoder.mixEffect;
  }
}
