/**
 * MessageEvent.cs: an entity event carrying a text message, built either from the message
 * (packing it into a fresh byte buffer) or from received bytes (pulling the message back out).
 */
module MessageEvents {
  import opened Wrappers
  import opened Network

  /** EVENT_TYPE: the kinds of entity event. */
  datatype EventType = Message | PickupWeapon | PickupSpell | PickupAccessory | Attack | Death

  /** The longest string .NET allocates; twice it plus four still fits in an int. */
  const MaxStringLength: int := 0x3FFF_FFDF

  class MessageEvent {
    const kind: EventType
    var message: seq<char16>
    /** bitArray: the event's bytes. */
    var bitArray: array<byte>

    /**
     * The message constructor: a buffer of exactly 2|msg| + 4 bytes, filled from index 0 by
     * PackString, which ends with the cursor at the buffer's end.
     */
    constructor FromString(msg: seq<char16>)
      requires |msg| <= MaxStringLength
      ensures kind == Message && message == msg
      ensures fresh(bitArray) && bitArray.Length == |msg| * CharSize + IntSize
      ensures bitArray[..] == StringBytes(msg)
    {
      kind := Message;
      message := msg;
      var bits := new byte[|msg| * CharSize + IntSize];
      var r, iter := PackString(0, bits, msg);
      assert r.Pass? && iter == bits.Length;
      assert bits[..] == bits[..][..0] + StringBytes(msg) + bits[..][iter..];
      bitArray := bits;
    }

    /** The fields as the byte constructor leaves them: the given bytes and message. */
    constructor Of(bits: array<byte>, msg: seq<char16>)
      ensures kind == Message && message == msg && bitArray == bits
    {
      kind := Message;
      message := msg;
      bitArray := bits;
    }
  }

  /**
   * The byte constructor as written: keeps `bits` itself as the buffer and pulls the message
   * with PullString, so the message is always empty. PullString's exceptions escape the
   * constructor, and then there is no event.
   */
  method FromBytes(bits: array<byte>) returns (r: Result<MessageEvent>)
    ensures r.Ok? <==> StringFits(0, bits[..])
    ensures r.Ok? ==> r.value.kind == Message && r.value.bitArray == bits && r.value.message == []
    ensures r.Err? ==> r.error == PullError(0, bits[..])
  {
    var pulled, _ := PullString(0, bits);
    if pulled.Err? {
      return Err(pulled.error);
    }
    var e := new MessageEvent.Of(bits, pulled.value);
    r := Ok(e);
  }

  /** The byte constructor as intended: the message is the string the bytes hold. */
  method FromBytesCollected(bits: array<byte>) returns (r: Result<MessageEvent>)
    ensures r.Ok? <==> StringFits(0, bits[..])
    ensures r.Ok? ==> r.value.kind == Message && r.value.bitArray == bits
    ensures r.Ok? ==> |r.value.message| == Declared(0, bits[..])
    ensures r.Ok? ==> forall i | 0 <= i < |r.value.message| ::
      r.value.message[i] == CharOf(bits[IntSize + CharSize * i..IntSize + CharSize * i + CharSize])
    ensures r.Err? ==> r.error == PullError(0, bits[..])
  {
    var pulled, _ := PullStringCollected(0, bits);
    if pulled.Err? {
      return Err(pulled.error);
    }
    var e := new MessageEvent.Of(bits, pulled.value);
    r := Ok(e);
  }

  /**
   * Sending a message and rebuilding the event from its bytes, as written: the rebuilt event
   * has the sent bytes but an empty message, so any non-empty message is lost.
   */
  method Echo(msg: seq<char16>) returns (received: MessageEvent)
    requires |msg| <= MaxStringLength
    ensures received.bitArray[..] == StringBytes(msg)
    ensures received.message == []
    ensures msg != [] ==> received.message != msg
  {
    var sent := new MessageEvent.FromString(msg);
    Fits(msg, sent.bitArray);
    var r := FromBytes(sent.bitArray);
    received := r.value;
  }

  /** The same with the intended byte constructor: the message comes back unchanged. */
  method EchoCollected(msg: seq<char16>) returns (received: MessageEvent)
    requires |msg| <= MaxStringLength
    ensures received.bitArray[..] == StringBytes(msg)
    ensures received.message == msg
  {
    var sent := new MessageEvent.FromString(msg);
    Fits(msg, sent.bitArray);
    var r := FromBytesCollected(sent.bitArray);
    received := r.value;
    PullPacked(msg, sent.bitArray[..], 0, received.message);
  }

  /** A message's own bytes hold a string that fits them, of the message's length. */
  lemma Fits(msg: seq<char16>, bits: array<byte>)
    requires |msg| <= MaxStringLength && bits[..] == StringBytes(msg)
    ensures StringFits(0, bits[..]) && Declared(0, bits[..]) == |msg|
  {
    StringLayout(msg);
    assert bits[..][0..IntSize] == StringBytes(msg)[..IntSize];
  }
}
