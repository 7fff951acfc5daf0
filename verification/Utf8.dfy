/** UTF-8 as section 4 of RFC 3629 defines it, and `str::from_utf8` as the standard library reports it. */
module Utf8 {
  import opened Bytes

  predicate Tail(b: byte) { 0x80 <= b <= 0xBF }

  /** One character: the UTF8-1 .. UTF8-4 productions of section 4 of RFC 3629. */
  predicate IsChar(s: seq<byte>) {
    || (|s| == 1 && s[0] <= 0x7F)
    || (|s| == 2 && 0xC2 <= s[0] <= 0xDF && Tail(s[1]))
    || (|s| == 3 && s[0] == 0xE0 && 0xA0 <= s[1] <= 0xBF && Tail(s[2]))
    || (|s| == 3 && 0xE1 <= s[0] <= 0xEC && Tail(s[1]) && Tail(s[2]))
    || (|s| == 3 && s[0] == 0xED && 0x80 <= s[1] <= 0x9F && Tail(s[2]))
    || (|s| == 3 && 0xEE <= s[0] <= 0xEF && Tail(s[1]) && Tail(s[2]))
    || (|s| == 4 && s[0] == 0xF0 && 0x90 <= s[1] <= 0xBF && Tail(s[2]) && Tail(s[3]))
    || (|s| == 4 && 0xF1 <= s[0] <= 0xF3 && Tail(s[1]) && Tail(s[2]) && Tail(s[3]))
    || (|s| == 4 && s[0] == 0xF4 && 0x80 <= s[1] <= 0x8F && Tail(s[2]) && Tail(s[3]))
  }

  // ---- characters as numbers ----

  predicate IsScalarValue(c: int) {
    0 <= c <= 0x10_FFFF && !(0xD800 <= c <= 0xDFFF)
  }

  /** The bytes of a character number, as section 3 of RFC 3629 distributes its bits. */
  function EncodeScalar(c: int): seq<byte>
    requires 0 <= c <= 0x10_FFFF
  {
    if c < 0x80 then [c]
    else if c < 0x800 then [0xC0 + c / 64, 0x80 + c % 64]
    else if c < 0x1_0000 then [0xE0 + c / 4096, 0x80 + c / 64 % 64, 0x80 + c % 64]
    else [0xF0 + c / 262144, 0x80 + c / 4096 % 64, 0x80 + c / 64 % 64, 0x80 + c % 64]
  }

  lemma ScalarIsChar(c: int)
    requires IsScalarValue(c)
    ensures IsChar(EncodeScalar(c))
  {
    var x := c / 64;
    var y := x / 64;
    assert c / 4096 == y && c / 262144 == y / 64;
    assert c == 64 * x + c % 64 && x == 64 * y + x % 64;
  }

  lemma CharHasScalar(s: seq<byte>) returns (c: int)
    requires IsChar(s)
    ensures IsScalarValue(c) && EncodeScalar(c) == s
  {
    var d: seq<int> := s;
    if |s| == 1 {
      c := d[0];
    } else if |s| == 2 {
      c := TwoByteScalar(d[0], d[1]);
      assert s == [s[0], s[1]];
    } else if |s| == 3 {
      c := ThreeByteScalar(d[0], d[1], d[2]);
      assert s == [s[0], s[1], s[2]];
    } else {
      c := FourByteScalar(d[0], d[1], d[2], d[3]);
      assert s == [s[0], s[1], s[2], s[3]];
    }
  }

  lemma SixBits(a: int, b: int)
    requires 0x80 <= b <= 0xBF
    ensures (64 * a + (b - 0x80)) / 64 == a && 0x80 + (64 * a + (b - 0x80)) % 64 == b
  {
  }

  lemma TwoByteScalar(b0: int, b1: int) returns (c: int)
    requires 0xC2 <= b0 <= 0xDF && 0x80 <= b1 <= 0xBF
    ensures 0x80 <= c < 0x800 && [0xC0 + c / 64, 0x80 + c % 64] == [b0, b1]
  {
    c := 64 * (b0 - 0xC0) + (b1 - 0x80);
    SixBits(b0 - 0xC0, b1);
  }

  lemma ThreeByteScalar(b0: int, b1: int, b2: int) returns (c: int)
    requires 0xE0 <= b0 <= 0xEF && 0x80 <= b1 <= 0xBF && 0x80 <= b2 <= 0xBF
    requires (b0 == 0xE0 ==> b1 >= 0xA0) && (b0 == 0xED ==> b1 <= 0x9F)
    ensures 0x800 <= c < 0x1_0000 && !(0xD800 <= c <= 0xDFFF)
    ensures [0xE0 + c / 4096, 0x80 + c / 64 % 64, 0x80 + c % 64] == [b0, b1, b2]
  {
    var x := 64 * (b0 - 0xE0) + (b1 - 0x80);
    c := 64 * x + (b2 - 0x80);
    SixBits(b0 - 0xE0, b1);
    SixBits(x, b2);
    assert c / 4096 == x / 64;
  }

  lemma FourByteScalar(b0: int, b1: int, b2: int, b3: int) returns (c: int)
    requires 0xF0 <= b0 <= 0xF4 && 0x80 <= b1 <= 0xBF && 0x80 <= b2 <= 0xBF && 0x80 <= b3 <= 0xBF
    requires (b0 == 0xF0 ==> b1 >= 0x90) && (b0 == 0xF4 ==> b1 <= 0x8F)
    ensures 0x1_0000 <= c <= 0x10_FFFF
    ensures [0xF0 + c / 262144, 0x80 + c / 4096 % 64, 0x80 + c / 64 % 64, 0x80 + c % 64] == [b0, b1, b2, b3]
  {
    var x := 64 * (b0 - 0xF0) + (b1 - 0x80);
    var y := 64 * x + (b2 - 0x80);
    c := 64 * y + (b3 - 0x80);
    SixBits(b0 - 0xF0, b1);
    SixBits(x, b2);
    SixBits(y, b3);
    assert c / 4096 == y / 64 == x && c / 262144 == x / 64;
  }

  /** The productions of section 4 are exactly the encodings of scalar values. */
  lemma CharsAreScalars(s: seq<byte>)
    ensures IsChar(s) <==> exists c :: IsScalarValue(c) && EncodeScalar(c) == s
  {
    hide IsChar, EncodeScalar;
    if IsChar(s) {
      var c := CharHasScalar(s);
    }
    forall c | IsScalarValue(c)
      ensures IsChar(EncodeScalar(c))
    {
      ScalarIsChar(c);
    }
  }

  /** A sequence of characters: the UTF8-octets production. */
  ghost predicate WellFormed(s: seq<byte>)
    decreases |s|
  {
    s == [] || exists n :: 1 <= n <= |s| && IsChar(s[..n]) && WellFormed(s[n..])
  }

  /** Whether more input could complete `s` into one character. */
  ghost predicate Incomplete(s: seq<byte>) {
    exists t: seq<byte> :: t != [] && IsChar(s + t)
  }

  /**
   * What `str::from_utf8` reports. `errorLen` is `None` when the input ends inside a character;
   * otherwise it is the length of the ill-formed subsequence at `validUpTo`.
   */
  datatype Verdict = Valid | Invalid(validUpTo: nat, errorLen: Option<nat>)

  /** Number of bytes a lead byte announces; 0 when it cannot start a character. */
  function Width(lead: byte): (w: nat)
    ensures w <= 4
  {
    if lead <= 0x7F then 1
    else if 0xC2 <= lead <= 0xDF then 2
    else if 0xE0 <= lead <= 0xEF then 3
    else if 0xF0 <= lead <= 0xF4 then 4
    else 0
  }

  predicate SecondFits(lead: byte, b: byte) {
    if lead == 0xE0 then 0xA0 <= b <= 0xBF
    else if lead == 0xED then 0x80 <= b <= 0x9F
    else if lead == 0xF0 then 0x90 <= b <= 0xBF
    else if lead == 0xF4 then 0x80 <= b <= 0x8F
    else Tail(b)
  }

  /** How many leading bytes of `s` still agree with the character its lead byte announces. */
  function Agreeing(s: seq<byte>): (n: nat)
    requires s != []
    ensures n <= |s| && n <= Width(s[0])
  {
    var w := Width(s[0]);
    if w <= 1 || |s| == 1 then Min(w, 1)
    else if !SecondFits(s[0], s[1]) then 1
    else if w == 2 || |s| == 2 then 2
    else if !Tail(s[2]) then 2
    else if w == 3 || |s| == 3 then 3
    else if !Tail(s[3]) then 3
    else 4
  }

  function FromUtf8(s: seq<byte>): (v: Verdict)
    ensures v.Invalid? ==> v.validUpTo < |s|
    ensures v.Invalid? && v.errorLen.Some? ==> 1 <= v.errorLen.value && v.validUpTo + v.errorLen.value <= |s|
  {
    if s == [] then Valid
    else
      var n := Agreeing(s);
      if n == 0 then Invalid(0, Some(1))
      else if n < Width(s[0]) then Invalid(0, if n == |s| then None else Some(n))
      else
        match FromUtf8(s[n..])
        case Valid => Valid
        case Invalid(v, e) => Invalid(n + v, e)
  }

  lemma AgreeingIsChar(s: seq<byte>)
    requires s != []
    ensures var n := Agreeing(s); 0 < n == Width(s[0]) ==> IsChar(s[..n])
    ensures forall n :: 1 <= n <= |s| && IsChar(s[..n]) ==> n == Agreeing(s) == Width(s[0])
  {
  }

  /** Any character that starts with the agreeing bytes, completing them where the input ran out. */
  function Completion(s: seq<byte>): (t: seq<byte>)
    requires s != []
    requires 0 < |s| == Agreeing(s) < Width(s[0])
    ensures t != [] && IsChar(s + t)
  {
    var second := if s[0] == 0xE0 then 0xA0 else if s[0] == 0xF0 then 0x90 else 0x80;
    if |s| > 1 then [0x80, 0x80][..Width(s[0]) - |s|]
    else [second] + [0x80, 0x80][..Width(s[0]) - 2]
  }

  /** `s` is the start of a longer character exactly when all its bytes agree and its lead wants more. */
  lemma IncompleteIff(s: seq<byte>)
    requires s != []
    ensures Incomplete(s) <==> 0 < |s| == Agreeing(s) < Width(s[0])
  {
    if 0 < |s| == Agreeing(s) < Width(s[0]) {
      assert IsChar(s + Completion(s));
    }
    forall t: seq<byte> | t != [] && IsChar(s + t)
      ensures 0 < |s| == Agreeing(s) < Width(s[0])
    {
      assert (s + t)[..|s + t|] == s + t;
      AgreeingIsChar(s + t);
      assert forall k :: 0 <= k < |s| ==> (s + t)[k] == s[k];
    }
  }

  lemma EmptyIsWellFormed()
    ensures WellFormed([])
  {
  }

  lemma WellFormedStep(s: seq<byte>)
    requires s != []
    ensures var n := Agreeing(s);
            WellFormed(s) <==> (0 < n == Width(s[0]) && WellFormed(s[n..]))
  {
    AgreeingIsChar(s);
  }

  /** `from_utf8` accepts exactly the well-formed inputs. */
  lemma {:induction false} FromUtf8Accepts(s: seq<byte>)
    ensures FromUtf8(s).Valid? <==> WellFormed(s)
    decreases |s|
  {
    hide IsChar, Agreeing, Width;
    if s != [] {
      WellFormedStep(s);
      var n := Agreeing(s);
      if 0 < n == Width(s[0]) {
        FromUtf8Accepts(s[n..]);
      }
    }
  }

  /**
   * What a rejection says about the bytes from the valid part on: no character starts there; the
   * error length is absent exactly when they are a cut-off character, and otherwise is the longest
   * prefix some character could start with, or one byte when there is none (the maximal-subpart
   * rule of section 3.9 of the Unicode Standard).
   */
  ghost predicate Rejected(rest: seq<byte>, errorLen: Option<nat>) {
    && rest != [] && !WellFormed(rest)
    && (forall n :: 1 <= n <= |rest| ==> !IsChar(rest[..n]))
    && (errorLen.None? <==> Incomplete(rest))
    && (errorLen.None? ==> |rest| <= 3)
    && (errorLen.Some? ==>
          var n := errorLen.value;
          && 1 <= n <= 3 && n <= |rest|
          && (n == 1 || Incomplete(rest[..n]))
          && (forall k :: n < k <= |rest| ==> !Incomplete(rest[..k])))
  }

  lemma AgreeingOfPrefix(s: seq<byte>, k: nat)
    requires 1 <= k <= |s|
    ensures Agreeing(s[..k]) == Min(k, Agreeing(s))
  {
  }

  lemma RejectedAtOnce(s: seq<byte>)
    requires s != []
    requires Agreeing(s) == 0 || Agreeing(s) < Width(s[0])
    ensures Rejected(s, FromUtf8(s).errorLen)
  {
    AgreeingIsChar(s);
    WellFormedStep(s);
    IncompleteIff(s);
    hide IsChar, WellFormed, Incomplete;
    forall k | 1 <= k <= |s|
      ensures Incomplete(s[..k]) <==> k == Min(k, Agreeing(s)) < Width(s[0])
    {
      hide Agreeing, Width;
      IncompleteIff(s[..k]);
      AgreeingOfPrefix(s, k);
    }
  }

  /** A rejection splits the input into a well-formed part and rejected bytes. */
  lemma {:induction false} FromUtf8Rejects(s: seq<byte>)
    requires FromUtf8(s).Invalid?
    ensures WellFormed(s[..FromUtf8(s).validUpTo])
    ensures Rejected(s[FromUtf8(s).validUpTo..], FromUtf8(s).errorLen)
    decreases |s|
  {
    hide IsChar, Rejected, Incomplete, Agreeing;
    var n := Agreeing(s);
    if 0 < n == Width(s[0]) {
      FromUtf8Rejects(s[n..]);
      var v := FromUtf8(s[n..]).validUpTo;
      Slices(s, n, v);
      AgreeingIsChar(s);
      assert WellFormed(s[..n + v]);
    } else {
      RejectedAtOnce(s);
      assert s[0..] == s;
    }
  }

  /** A well-formed prefix can be cut off without changing the verdict on the rest. */
  lemma {:induction false} WellFormedConcat(a: seq<byte>, b: seq<byte>)
    requires WellFormed(a)
    ensures WellFormed(a + b) <==> WellFormed(b)
    decreases |a|
  {
    hide IsChar, WellFormed, Agreeing, Width;
    if a == [] {
      assert a + b == b;
    } else {
      WellFormedStep(a);
      var n := Agreeing(a);
      WellFormedConcat(a[n..], b);
      SlicesOfConcat(a, b, n);
      AgreeingIsChar(a);
      AgreeingIsChar(a + b);
      WellFormedStep(a + b);
    }
  }
}
