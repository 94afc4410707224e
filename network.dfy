/**
 * The byte codec of NetworkManager.cs: Pack* writes a value's bytes at a cursor into a byte
 * array and advances the cursor, Pull* reads them back. BitConverter is taken to be
 * little-endian, with ints in two's complement and chars as UTF-16 code units.
 */
module Network {
  import opened Wrappers
  import opened SeqUtil

  newtype byte = x: int | 0 <= x < 0x100
  newtype int32 = x: int | -0x8000_0000 <= x < 0x8000_0000
  /** A C# char: one UTF-16 code unit. A C# string is a sequence of them. */
  newtype char16 = x: int | 0 <= x < 0x1_0000

  /** sizeof(int) and sizeof(char). */
  const IntSize: int := 4
  const CharSize: int := 2

  /** 256 to the power `n`. */
  function Pow256(n: nat): (p: nat)
    ensures p > 0
  {
    if n == 0 then 1 else 0x100 * Pow256(n - 1)
  }

  /** The `n` lowest base-256 digits of `u`, lowest first. */
  function Digits(u: nat, n: nat): (r: seq<byte>)
    ensures |r| == n
  {
    if n == 0 then [] else [(u % 0x100) as byte] + Digits(u / 0x100, n - 1)
  }

  /** The number whose base-256 digits, lowest first, are `b`. */
  function Value(b: seq<byte>): (v: nat)
    ensures v < Pow256(|b|)
  {
    if b == [] then 0 else b[0] as nat + 0x100 * Value(b[1..])
  }

  /** A number below 256^n is the value of its n digits. */
  lemma {:induction false} ValueOfDigits(u: nat, n: nat)
    requires u < Pow256(n)
    ensures Value(Digits(u, n)) == u
  {
    if n > 0 {
      ValueOfDigits(u / 0x100, n - 1);
      assert Digits(u, n)[1..] == Digits(u / 0x100, n - 1);
    }
  }

  /** Digits are the digits of their value. */
  lemma {:induction false} DigitsOfValue(b: seq<byte>)
    ensures Digits(Value(b), |b|) == b
  {
    if b != [] {
      DigitsOfValue(b[1..]);
      assert (b[0] as nat + 0x100 * Value(b[1..])) / 0x100 == Value(b[1..]);
    }
  }

  /** An int as the unsigned number with the same 32 bits (two's complement). */
  function Unsigned(v: int32): (u: nat)
    ensures u < Pow256(IntSize)
  {
    assert Pow256(IntSize) == 0x1_0000_0000;
    if v < 0 then v as int + 0x1_0000_0000 else v as int
  }

  /** The int whose 32 bits, read unsigned, are `u`. */
  function Signed(u: nat): (v: int32)
    requires u < Pow256(IntSize)
  {
    assert Pow256(IntSize) == 0x1_0000_0000;
    if u >= 0x8000_0000 then (u - 0x1_0000_0000) as int32 else u as int32
  }

  /** BitConverter.GetBytes(int): the four bytes of the two's-complement value, lowest first. */
  function IntBytes(v: int32): (r: seq<byte>)
    ensures |r| == IntSize
  {
    Digits(Unsigned(v), IntSize)
  }

  /** BitConverter.ToInt32 on four bytes. */
  function IntOf(b: seq<byte>): int32
    requires |b| == IntSize
  {
    Signed(Value(b))
  }

  /** Pulling a packed int gives it back. */
  lemma IntRoundTrip(v: int32)
    ensures IntOf(IntBytes(v)) == v
  {
    ValueOfDigits(Unsigned(v), IntSize);
  }

  /** Every four bytes are the packing of the int they pull as. */
  lemma IntBytesRoundTrip(b: seq<byte>)
    requires |b| == IntSize
    ensures IntBytes(IntOf(b)) == b
  {
    assert Pow256(IntSize) == 0x1_0000_0000;
    assert Unsigned(Signed(Value(b))) == Value(b);
    DigitsOfValue(b);
  }

  /** BitConverter.GetBytes(char): the code unit's two bytes, lowest first. */
  function CharBytes(c: char16): (r: seq<byte>)
    ensures |r| == CharSize
  {
    Digits(c as nat, CharSize)
  }

  /** BitConverter.ToChar on two bytes. */
  function CharOf(b: seq<byte>): char16
    requires |b| == CharSize
  {
    assert Pow256(CharSize) == 0x1_0000;
    Value(b) as char16
  }

  /** Pulling a packed char gives it back, and every two bytes are the packing of their char. */
  lemma CharRoundTrip(c: char16, b: seq<byte>)
    ensures CharOf(CharBytes(c)) == c
    ensures |b| == CharSize ==> CharBytes(CharOf(b)) == b
  {
    assert Pow256(CharSize) == 0x1_0000;
    ValueOfDigits(c as nat, CharSize);
    if |b| == CharSize {
      DigitsOfValue(b);
    }
  }

  /** The chars of a string packed one after another. */
  function CharsBytes(s: seq<char16>): (r: seq<byte>)
    ensures |r| == CharSize * |s|
  {
    if s == [] then [] else CharsBytes(s[..|s| - 1]) + CharBytes(s[|s| - 1])
  }

  /** The `i`th char of a string sits, packed, at byte 2i of its packed chars. */
  lemma {:induction false} CharsAt(s: seq<char16>, i: nat)
    requires i < |s|
    ensures CharOf(CharsBytes(s)[CharSize * i..CharSize * i + CharSize]) == s[i]
    decreases |s|
  {
    var n := |s| - 1;
    assert CharsBytes(s) == CharsBytes(s[..n]) + CharBytes(s[n]);
    if i == n {
      assert CharsBytes(s)[CharSize * i..CharSize * i + CharSize] == CharBytes(s[n]);
      CharRoundTrip(s[n], []);
    } else {
      CharsAt(s[..n], i);
      assert CharsBytes(s)[CharSize * i..CharSize * i + CharSize] == CharsBytes(s[..n])[CharSize * i..CharSize * i + CharSize];
    }
  }

  /** PackString's bytes: the length as an int, then each char. */
  function StringBytes(s: seq<char16>): (r: seq<byte>)
    requires |s| < 0x8000_0000
    ensures |r| == IntSize + CharSize * |s|
  {
    IntBytes(|s| as int32) + CharsBytes(s)
  }

  /** A packed string starts with its length and holds its `i`th char at byte 4 + 2i. */
  lemma StringLayout(s: seq<char16>)
    requires |s| < 0x8000_0000
    ensures IntOf(StringBytes(s)[..IntSize]) as int == |s|
    ensures forall i | 0 <= i < |s| ::
      CharOf(StringBytes(s)[IntSize + CharSize * i..IntSize + CharSize * i + CharSize]) == s[i]
  {
    var b := StringBytes(s);
    assert b[..IntSize] == IntBytes(|s| as int32);
    IntRoundTrip(|s| as int32);
    forall i | 0 <= i < |s|
      ensures CharOf(b[IntSize + CharSize * i..IntSize + CharSize * i + CharSize]) == s[i]
    {
      assert b[IntSize + CharSize * i..IntSize + CharSize * i + CharSize] == CharsBytes(s)[CharSize * i..CharSize * i + CharSize];
      CharsAt(s, i);
    }
  }

  /**
   * Array.CopyTo of `size` bytes at `iter`: a negative index is out of range, and too few
   * bytes from the index to the end is an argument error.
   */
  function CopyCheck(iter: int, size: int, length: int): (r: Outcome)
    ensures r.Pass? <==> 0 <= iter && iter + size <= length
  {
    if iter < 0 then Fail(ArgumentOutOfRangeException)
    else if iter + size > length then Fail(ArgumentException)
    else Pass
  }

  /**
   * BitConverter.ToInt32 / ToChar at `iter`: an index outside the array is out of range, and
   * fewer than `size` bytes from it to the end is an argument error.
   */
  function ReadCheck(iter: int, size: int, length: int): (r: Outcome)
    requires size > 0
    ensures r.Pass? <==> 0 <= iter && iter + size <= length
  {
    if iter < 0 || iter >= length then Fail(ArgumentOutOfRangeException)
    else if iter + size > length then Fail(ArgumentException)
    else Pass
  }

  /** Writes `b` at `iter`, all of it inside the array. */
  method Put(iter: int, bits: array<byte>, b: seq<byte>)
    requires 0 <= iter && iter + |b| <= bits.Length
    modifies bits
    ensures bits[..] == old(bits[..])[..iter] + b + old(bits[..])[iter + |b|..]
  {
    forall i | 0 <= i < |b| {
      bits[iter + i] := b[i];
    }
    assert bits[..] == old(bits[..])[..iter] + b + old(bits[..])[iter + |b|..];
  }

  /**
   * PackInt: the int's four bytes replace bytes [iter, iter + 4) and the cursor moves past
   * them. When they do not fit, CopyTo throws before writing and the cursor stays.
   */
  method PackInt(iter: int, bits: array<byte>, v: int32) returns (r: Outcome, next: int)
    modifies bits
    ensures r == CopyCheck(iter, IntSize, bits.Length)
    ensures r.Pass? ==> next == iter + IntSize && bits[..] == old(bits[..])[..iter] + IntBytes(v) + old(bits[..])[next..]
    ensures r.Fail? ==> next == iter && bits[..] == old(bits[..])
  {
    r := CopyCheck(iter, IntSize, bits.Length);
    if r.Fail? {
      return r, iter;
    }
    Put(iter, bits, IntBytes(v));
    next := iter + IntSize;
  }

  /** PackChar: the same for the char's two bytes. */
  method PackChar(iter: int, bits: array<byte>, c: char16) returns (r: Outcome, next: int)
    modifies bits
    ensures r == CopyCheck(iter, CharSize, bits.Length)
    ensures r.Pass? ==> next == iter + CharSize && bits[..] == old(bits[..])[..iter] + CharBytes(c) + old(bits[..])[next..]
    ensures r.Fail? ==> next == iter && bits[..] == old(bits[..])
  {
    r := CopyCheck(iter, CharSize, bits.Length);
    if r.Fail? {
      return r, iter;
    }
    Put(iter, bits, CharBytes(c));
    next := iter + CharSize;
  }

  /** PullInt: the int whose bytes are at `iter`, and the cursor past them. */
  method PullInt(iter: int, bits: array<byte>) returns (r: Result<int32>, next: int)
    ensures ReadCheck(iter, IntSize, bits.Length).Fail? ==> r == Err(ReadCheck(iter, IntSize, bits.Length).error) && next == iter
    ensures ReadCheck(iter, IntSize, bits.Length).Pass? ==> r == Ok(IntOf(bits[iter..iter + IntSize])) && next == iter + IntSize
  {
    var check := ReadCheck(iter, IntSize, bits.Length);
    if check.Fail? {
      return Err(check.error), iter;
    }
    r := Ok(IntOf(bits[iter..iter + IntSize]));
    next := iter + IntSize;
  }

  /** PullChar: the char whose bytes are at `iter`, and the cursor past them. */
  method PullChar(iter: int, bits: array<byte>) returns (r: Result<char16>, next: int)
    ensures ReadCheck(iter, CharSize, bits.Length).Fail? ==> r == Err(ReadCheck(iter, CharSize, bits.Length).error) && next == iter
    ensures ReadCheck(iter, CharSize, bits.Length).Pass? ==> r == Ok(CharOf(bits[iter..iter + CharSize])) && next == iter + CharSize
  {
    var check := ReadCheck(iter, CharSize, bits.Length);
    if check.Fail? {
      return Err(check.error), iter;
    }
    r := Ok(CharOf(bits[iter..iter + CharSize]));
    next := iter + CharSize;
  }

  /** The number of whole chars that fit between `from` and `length`. */
  function Fitting(from: int, length: int): (k: nat)
    requires from <= length
    ensures from + CharSize * k <= length < from + CharSize * (k + 1)
  {
    (length - from) / CharSize
  }

  /**
   * One pass of PackString's loop: packs char `i` after the length and the chars before it,
   * or throws, writing nothing, when its two bytes do not fit.
   */
  method PackNext(iter: int, bits: array<byte>, s: seq<char16>, i: nat, next: int, ghost b0: seq<byte>)
    returns (r: Outcome, n: int)
    requires |s| < 0x8000_0000 && 0 <= iter && i < |s| && |b0| == bits.Length
    requires next == iter + IntSize + CharSize * i <= bits.Length
    requires bits[..] == b0[..iter] + IntBytes(|s| as int32) + CharsBytes(s[..i]) + b0[next..]
    modifies bits
    ensures r.Pass? ==> n == next + CharSize <= bits.Length
    ensures r.Pass? ==> bits[..] == b0[..iter] + IntBytes(|s| as int32) + CharsBytes(s[..i + 1]) + b0[n..]
    ensures r.Fail? ==> r == Fail(ArgumentException) && next + CharSize > bits.Length && bits[..] == old(bits[..])
  {
    ghost var head := b0[..iter] + IntBytes(|s| as int32) + CharsBytes(s[..i]);
    assert |head| == next;
    assert old(bits[..])[..next] == head;
    r, n := PackChar(next, bits, s[i]);
    if r.Pass? {
      assert old(bits[..])[n..] == b0[n..];
      assert s[..i + 1][..i] == s[..i];
      assert CharsBytes(s[..i + 1]) == CharsBytes(s[..i]) + CharBytes(s[i]);
      ConcatAssoc(b0[..iter] + IntBytes(|s| as int32), CharsBytes(s[..i]), CharBytes(s[i]));
    }
  }

  /**
   * PackString: the length, then each char. When everything fits, bytes
   * [iter, iter + 4 + 2|s|) hold StringBytes(s); otherwise the first pack that does not fit
   * throws, after the ones before it were written.
   */
  method PackString(iter: int, bits: array<byte>, s: seq<char16>) returns (r: Outcome, next: int)
    requires |s| < 0x8000_0000
    modifies bits
    ensures r.Pass? <==> 0 <= iter && iter + IntSize + CharSize * |s| <= bits.Length
    ensures r.Pass? ==> next == iter + IntSize + CharSize * |s|
    ensures r.Pass? ==> bits[..] == old(bits[..])[..iter] + StringBytes(s) + old(bits[..])[next..]
    ensures r.Fail? ==> r.error == if iter < 0 then ArgumentOutOfRangeException else ArgumentException
    ensures r.Fail? && !(0 <= iter && iter + IntSize <= bits.Length) ==> next == iter && bits[..] == old(bits[..])
    ensures r.Fail? && 0 <= iter && iter + IntSize <= bits.Length ==>
      var k := Fitting(iter + IntSize, bits.Length);
      && k < |s| && next == iter + IntSize + CharSize * k
      && bits[..] == old(bits[..])[..iter] + IntBytes(|s| as int32) + CharsBytes(s[..k]) + old(bits[..])[next..]
  {
    ghost var b0 := bits[..];
    r, next := PackInt(iter, bits, |s| as int32);
    if r.Fail? {
      return;
    }
    for i := 0 to |s|
      invariant r == Pass && next == iter + IntSize + CharSize * i <= bits.Length
      invariant bits[..] == b0[..iter] + IntBytes(|s| as int32) + CharsBytes(s[..i]) + b0[next..]
    {
      var n;
      r, n := PackNext(iter, bits, s, i, next, b0);
      if r.Fail? {
        assert Fitting(iter + IntSize, bits.Length) == i;
        return;
      }
      next := n;
    }
    assert s[..|s|] == s;
  }

  /** The length a packed string at `iter` declares; a negative one counts as no chars. */
  function Declared(iter: int, b: seq<byte>): (n: nat)
    requires 0 <= iter && iter + IntSize <= |b|
    ensures n as int == IntOf(b[iter..iter + IntSize]) as int || (n == 0 && IntOf(b[iter..iter + IntSize]) < 0)
  {
    var v := IntOf(b[iter..iter + IntSize]);
    if v < 0 then 0 else v as nat
  }

  /** The length and all the chars it declares lie inside the bytes. */
  predicate StringFits(iter: int, b: seq<byte>)
  {
    && 0 <= iter && iter + IntSize <= |b|
    && iter + IntSize + CharSize * Declared(iter, b) <= |b|
  }

  /**
   * The exception a string pull throws: the length's own, or else the one of the first char
   * that does not fit (out of range when no byte is left, an argument error when one is).
   */
  function PullError(iter: int, b: seq<byte>): (e: Exception)
    requires !StringFits(iter, b)
    ensures e == ArgumentOutOfRangeException || e == ArgumentException
  {
    if ReadCheck(iter, IntSize, |b|).Fail? then ReadCheck(iter, IntSize, |b|).error
    else if (|b| - (iter + IntSize)) % CharSize == 0 then ArgumentOutOfRangeException
    else ArgumentException
  }

  /**
   * PullString as written: reads the length and steps over that many chars, but returns the
   * empty string whatever the bytes hold. A negative length reads no chars.
   */
  method PullString(iter: int, bits: array<byte>) returns (r: Result<seq<char16>>, next: int)
    ensures r.Ok? <==> StringFits(iter, bits[..])
    ensures r.Ok? ==> r.value == [] && next == iter + IntSize + CharSize * Declared(iter, bits[..])
    ensures r.Err? ==> r.error == PullError(iter, bits[..])
  {
    var size;
    var sized;
    sized, next := PullInt(iter, bits);
    if sized.Err? {
      return Err(sized.error), next;
    }
    size := sized.value;
    assert bits[..][iter..iter + IntSize] == bits[iter..iter + IntSize];
    ghost var n := Declared(iter, bits[..]);
    var i := 0;
    while i < size as int
      invariant 0 <= i <= n
      invariant next == iter + IntSize + CharSize * i <= bits.Length
    {
      var c;
      c, next := PullChar(next, bits);
      if c.Err? {
        return Err(c.error), next;
      }
      i := i + 1;
    }
    r := Ok([]);
  }

  /**
   * PullString as its callers need it: the chars it steps over, collected in order. A packed
   * string pulls back as itself (PullPacked).
   */
  method PullStringCollected(iter: int, bits: array<byte>) returns (r: Result<seq<char16>>, next: int)
    ensures r.Ok? <==> StringFits(iter, bits[..])
    ensures r.Ok? ==>
      && |r.value| == Declared(iter, bits[..])
      && next == iter + IntSize + CharSize * |r.value|
      && forall i | 0 <= i < |r.value| ::
        r.value[i] == CharOf(bits[iter + IntSize + CharSize * i..iter + IntSize + CharSize * i + CharSize])
    ensures r.Err? ==> r.error == PullError(iter, bits[..])
  {
    var size;
    var sized;
    sized, next := PullInt(iter, bits);
    if sized.Err? {
      return Err(sized.error), next;
    }
    size := sized.value;
    assert bits[..][iter..iter + IntSize] == bits[iter..iter + IntSize];
    ghost var n := Declared(iter, bits[..]);
    var s: seq<char16> := [];
    while |s| < size as int
      invariant |s| <= n
      invariant next == iter + IntSize + CharSize * |s| <= bits.Length
      invariant forall i | 0 <= i < |s| ::
        s[i] == CharOf(bits[iter + IntSize + CharSize * i..iter + IntSize + CharSize * i + CharSize])
      decreases size as int - |s|
    {
      var c;
      c, next := PullChar(next, bits);
      if c.Err? {
        return Err(c.error), next;
      }
      s := s + [c.value];
    }
    r := Ok(s);
  }

  /** Bytes holding StringBytes(s) at `iter` decode, char by char, to `s`. */
  lemma PullPacked(s: seq<char16>, bytes: seq<byte>, iter: nat, t: seq<char16>)
    requires |s| < 0x8000_0000 && iter + IntSize + CharSize * |s| <= |bytes|
    requires bytes[iter..iter + IntSize + CharSize * |s|] == StringBytes(s)
    requires |t| == |s|
    requires forall i | 0 <= i < |t| ::
      t[i] == CharOf(bytes[iter + IntSize + CharSize * i..iter + IntSize + CharSize * i + CharSize])
    ensures IntOf(bytes[iter..iter + IntSize]) as int == |s|
    ensures t == s
  {
    var w := bytes[iter..iter + IntSize + CharSize * |s|];
    StringLayout(s);
    SliceOfSlice(bytes, iter, iter + IntSize + CharSize * |s|, 0, IntSize);
    forall i | 0 <= i < |s| ensures t[i] == s[i] {
      SliceOfSlice(bytes, iter, iter + IntSize + CharSize * |s|, IntSize + CharSize * i, IntSize + CharSize * i + CharSize);
    }
  }
}
