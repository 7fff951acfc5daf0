/** The one-pass UTF-8 validation and NUL search over a memory map. */
module ChunkedScan {
  import opened Bytes
  import opened Utf8

  /** `o` is the offset of the first NUL in `s`, or absent when there is none. */
  ghost predicate IsFirstNul(o: Option<nat>, s: seq<byte>) {
    match o
    case None => 0 !in s
    case Some(i) => i < |s| && s[i] == 0 && 0 !in s[..i]
  }

  function FindNul(s: seq<byte>): (o: Option<nat>)
    ensures IsFirstNul(o, s)
  {
    if s == [] then None
    else if s[0] == 0 then Some(0)
    else
      match FindNul(s[1..])
      case None => None
      case Some(i) => assert s[..i + 1] == [s[0]] + s[1..][..i]; Some(i + 1)
  }

  /** Bytes of the chunk at `pos` the scan may consume; `None` rejects the buffer. */
  function Consumed(bytes: seq<byte>, pos: nat, end: nat): (n: Option<nat>)
    requires pos <= end <= |bytes|
    ensures n.Some? ==> pos + n.value <= end
  {
    var chunk := bytes[pos..end];
    match FromUtf8(chunk)
    case Valid => Some(|chunk|)
    case Invalid(v, e) => if e.None? && end < |bytes| then Some(v) else None
  }

  /** The scan from `pos` on, given the first NUL found before it. */
  function Scan(bytes: seq<byte>, chunkSize: nat, pos: nat, nul: Option<nat>): Option<Option<nat>>
    requires pos <= |bytes|
    decreases |bytes| - pos
  {
    if pos == |bytes| then Some(nul)
    else
      var end := Min(pos + chunkSize, |bytes|);
      match Consumed(bytes, pos, end)
      case None => None
      case Some(n) =>
        if n == 0 then None
        else
          Scan(bytes, chunkSize, pos + n, NextNul(bytes, pos, n, nul))
  }

  /** The first NUL after `n` more bytes are consumed. */
  function NextNul(bytes: seq<byte>, pos: nat, n: nat, nul: Option<nat>): (o: Option<nat>)
    requires pos + n <= |bytes|
    ensures IsFirstNul(nul, bytes[..pos]) ==> IsFirstNul(o, bytes[..pos + n])
  {
    Slices(bytes, pos, n);
    var here := FindNul(bytes[pos..pos + n]);
    assert here.Some? ==> bytes[..pos + n][..pos + here.value] == bytes[..pos] + bytes[pos..pos + n][..here.value];
    if nul.None? && here.Some? then Some(pos + here.value) else nul
  }

  /** One unfolding of the scan. */
  lemma ScanStep(bytes: seq<byte>, chunkSize: nat, pos: nat, nul: Option<nat>)
    requires pos < |bytes|
    ensures var c := Consumed(bytes, pos, Min(pos + chunkSize, |bytes|));
            Scan(bytes, chunkSize, pos, nul)
            == if c.None? || c.value == 0 then None
               else Scan(bytes, chunkSize, pos + c.value, NextNul(bytes, pos, c.value, nul))
  {
  }

  lemma ScanEnd(bytes: seq<byte>, chunkSize: nat, nul: Option<nat>)
    ensures Scan(bytes, chunkSize, |bytes|, nul) == Some(nul)
  {
  }

  method ValidateUtf8AndFindNul(bytes: seq<byte>, chunkSize: nat) returns (r: Option<Option<nat>>)
    ensures r == Scan(bytes, chunkSize, 0, None)
    ensures chunkSize >= 4 ==>
              && (r.Some? <==> WellFormed(bytes))
              && (r.Some? ==> IsFirstNul(r.value, bytes))
  {
    hide IsChar, FromUtf8, WellFormed, FindNul, IsFirstNul, Scan;
    if chunkSize >= 4 {
      ScanDecides(bytes, chunkSize);
    }
    ghost var target := Scan(bytes, chunkSize, 0, None);
    var pos := 0;
    var firstNul: Option<nat> := None;
    while pos < |bytes|
      invariant 0 <= pos <= |bytes|
      invariant target == Scan(bytes, chunkSize, pos, firstNul)
    {
      ScanStep(bytes, chunkSize, pos, firstNul);
      var end := Min(pos + chunkSize, |bytes|);
      var chunk := bytes[pos..end];
      var validLen;
      match FromUtf8(chunk) {
        case Valid => validLen := |chunk|;
        case Invalid(v, e) =>
          if e.None? && end < |bytes| {
            validLen := v;
          } else {
            return None;
          }
      }
      if validLen == 0 {
        return None;
      }
      assert Consumed(bytes, pos, end) == Some(validLen);
      var here := FindNul(bytes[pos..pos + validLen]);
      if firstNul.None? && here.Some? {
        firstNul := Some(pos + here.value);
      }
      pos := pos + validLen;
    }
    ScanEnd(bytes, chunkSize, firstNul);
    return Some(firstNul);
  }

  /** A full chunk always makes progress, and what it consumes is well formed. */
  lemma ConsumedSound(bytes: seq<byte>, chunkSize: nat, pos: nat)
    requires pos < |bytes| && chunkSize >= 4
    ensures var n := Consumed(bytes, pos, Min(pos + chunkSize, |bytes|));
            && (n.Some? ==> n.value > 0 && WellFormed(bytes[pos..pos + n.value]))
            && (n.None? ==> !WellFormed(bytes[pos..]))
  {
    hide IsChar, FromUtf8, WellFormed, Incomplete;
    var end := Min(pos + chunkSize, |bytes|);
    var chunk := bytes[pos..end];
    FromUtf8Accepts(chunk);
    if FromUtf8(chunk).Invalid? {
      FromUtf8Rejects(chunk);
      var v := FromUtf8(chunk).validUpTo;
      Slices(bytes, pos, end - pos);
      SlicesWithin(bytes, pos, end, v);
      if end == |bytes| {
        assert bytes[pos..] == chunk;
      } else if FromUtf8(chunk).errorLen.Some? {
        RejectionIsFinal(chunk, bytes[end..]);
      }
    }
  }

  /** Bytes that neither hold nor start a character never begin well-formed text. */
  lemma NeverBegins(rest: seq<byte>, errorLen: Option<nat>, more: seq<byte>)
    requires Rejected(rest, errorLen) && errorLen.Some?
    ensures !WellFormed(rest + more)
  {
    hide IsChar;
    var all := rest + more;
    forall n | 1 <= n <= |all|
      ensures !IsChar(all[..n])
    {
      if n <= |rest| {
        assert all[..n] == rest[..n];
      } else {
        assert all[..n] == rest + more[..n - |rest|];
      }
    }
  }

  /** An error with a length stays an error whatever bytes follow. */
  lemma RejectionIsFinal(chunk: seq<byte>, more: seq<byte>)
    requires FromUtf8(chunk).Invalid? && FromUtf8(chunk).errorLen.Some?
    ensures !WellFormed(chunk + more)
  {
    hide FromUtf8, WellFormed, Rejected;
    FromUtf8Rejects(chunk);
    var v := FromUtf8(chunk).validUpTo;
    assert chunk + more == chunk[..v] + (chunk[v..] + more);
    WellFormedConcat(chunk[..v], chunk[v..] + more);
    NeverBegins(chunk[v..], FromUtf8(chunk).errorLen, more);
  }

  /** With chunks of at least four bytes the scan decides well-formedness and finds the first NUL. */
  lemma {:induction false} ScanCorrect(bytes: seq<byte>, chunkSize: nat, pos: nat, nul: Option<nat>)
    requires pos <= |bytes| && chunkSize >= 4
    requires IsFirstNul(nul, bytes[..pos])
    ensures var r := Scan(bytes, chunkSize, pos, nul);
            && (r.Some? <==> WellFormed(bytes[pos..]))
            && (r.Some? ==> IsFirstNul(r.value, bytes))
    decreases |bytes| - pos
  {
    hide IsChar, FromUtf8, WellFormed, Consumed, FindNul, NextNul, IsFirstNul;
    assert bytes[..|bytes|] == bytes;
    EmptyIsWellFormed();
    assert bytes[|bytes|..] == [];
    if pos < |bytes| {
      ConsumedSound(bytes, chunkSize, pos);
      var c := Consumed(bytes, pos, Min(pos + chunkSize, |bytes|));
      if c.Some? {
        var n := c.value;
        Slices(bytes, pos, n);
        WellFormedConcat(bytes[pos..pos + n], bytes[pos + n..]);
        ScanCorrect(bytes, chunkSize, pos + n, NextNul(bytes, pos, n, nul));
      }
    }
  }

  lemma ScanDecides(bytes: seq<byte>, chunkSize: nat)
    requires chunkSize >= 4
    ensures var r := Scan(bytes, chunkSize, 0, None);
            && (r.Some? <==> WellFormed(bytes))
            && (r.Some? ==> IsFirstNul(r.value, bytes))
  {
    hide IsChar, FromUtf8, WellFormed, Scan;
    ScanCorrect(bytes, chunkSize, 0, None);
    assert bytes[0..] == bytes;
  }

  /** Four is the smallest chunk that works: below it, some well-formed buffer is rejected. */
  lemma ChunkOfFourIsExact(chunkSize: nat)
    ensures chunkSize >= 4 <==>
            forall bytes: seq<byte> :: Scan(bytes, chunkSize, 0, None).Some? <==> WellFormed(bytes)
  {
    if chunkSize >= 4 {
      forall bytes: seq<byte>
        ensures Scan(bytes, chunkSize, 0, None).Some? <==> WellFormed(bytes)
      {
        ScanDecides(bytes, chunkSize);
      }
    } else {
      var face: seq<byte> := [0xF0, 0x9F, 0x98, 0x80];
      assert IsChar(face[..4]) && WellFormed(face[4..]);
      assert WellFormed(face);
      assert FromUtf8(face[..chunkSize]) == if chunkSize == 0 then Valid else Invalid(0, None);
      assert face[0..chunkSize] == face[..chunkSize];
      assert Scan(face, chunkSize, 0, None).None?;
    }
  }
}
