/** The records of `index.bin`, `lookup.bin` and `files.bin`. */
module OnDisk {
  import opened Bytes
  import Utf8
  import opened LossyDecoding

  const LOOKUP_ENTRY_SIZE := 16
  const POSTING_ENTRY_SIZE := 6
  const FILE_HEADER_SIZE := 6
  const MAX_PATH_LEN := U16_MAX

  datatype Posting = Posting(fileId: u32, locMask: u8, nextMask: u8)

  datatype LookupEntry = LookupEntry(trigram: u32, offset: u64, length: u32)

  datatype FileEntry = FileEntry(id: u32, path: seq<byte>)

  // ---- index.bin ----

  function EncodePosting(p: Posting): (b: seq<byte>)
    ensures |b| == POSTING_ENTRY_SIZE
  {
    Le(4, p.fileId) + [p.locMask, p.nextMask]
  }

  function DecodePosting(b: seq<byte>): Posting
    requires |b| == POSTING_ENTRY_SIZE
  {
    Widths();
    Posting(FromLe(b[..4]), b[4], b[5])
  }

  lemma PostingRoundTrip(p: Posting)
    ensures DecodePosting(EncodePosting(p)) == p
  {
    Widths();
    FromLeOfLe(4, p.fileId);
    assert EncodePosting(p)[..4] == Le(4, p.fileId);
  }

  lemma PostingBytesRoundTrip(b: seq<byte>)
    requires |b| == POSTING_ENTRY_SIZE
    ensures EncodePosting(DecodePosting(b)) == b
  {
    LeOfFromLe(b[..4]);
    assert b == b[..4] + [b[4], b[5]];
  }

  /** Byte for byte: the file id with its least significant byte first, then the two masks. */
  lemma PostingBytes(p: Posting)
    ensures var b := EncodePosting(p);
            |b| == 6 && IsU32(b[0..4], p.fileId) && b[4] == p.locMask && b[5] == p.nextMask
  {
    LeDigits(p.fileId);
    assert EncodePosting(p)[0..4] == Le(4, p.fileId);
  }

  /** A posting read from six bytes has their numbers. */
  lemma PostingOfBytes(b: seq<byte>)
    requires |b| == 6
    ensures var p := DecodePosting(b);
            IsU32(b[0..4], p.fileId) && p.locMask == b[4] && p.nextMask == b[5]
  {
    FromLeDigits(b[..4]);
    assert b[0..4] == b[..4];
  }

  function EncodePostings(ps: seq<Posting>): (b: seq<byte>)
    ensures |b| == POSTING_ENTRY_SIZE * |ps|
  {
    if ps == [] then [] else EncodePosting(ps[0]) + EncodePostings(ps[1..])
  }

  function DecodePostings(b: seq<byte>): (ps: seq<Posting>)
    requires |b| % POSTING_ENTRY_SIZE == 0
    ensures POSTING_ENTRY_SIZE * |ps| == |b|
    decreases |b|
  {
    if b == [] then []
    else [DecodePosting(b[..POSTING_ENTRY_SIZE])] + DecodePostings(b[POSTING_ENTRY_SIZE..])
  }

  lemma {:induction false} PostingsRoundTrip(ps: seq<Posting>)
    ensures DecodePostings(EncodePostings(ps)) == ps
  {
    hide EncodePosting, DecodePosting;
    if ps != [] {
      PostingRoundTrip(ps[0]);
      PostingsRoundTrip(ps[1..]);
      var b := EncodePostings(ps);
      assert b[..POSTING_ENTRY_SIZE] == EncodePosting(ps[0]);
      assert b[POSTING_ENTRY_SIZE..] == EncodePostings(ps[1..]);
      assert ps == [ps[0]] + ps[1..];
    }
  }

  /** Copying posting bytes verbatim is the same as decoding and encoding them. */
  lemma {:induction false} PostingsBytesRoundTrip(b: seq<byte>)
    requires |b| % POSTING_ENTRY_SIZE == 0
    ensures EncodePostings(DecodePostings(b)) == b
    decreases |b|
  {
    hide EncodePosting, DecodePosting;
    if b != [] {
      PostingBytesRoundTrip(b[..POSTING_ENTRY_SIZE]);
      PostingsBytesRoundTrip(b[POSTING_ENTRY_SIZE..]);
      var ps := DecodePostings(b);
      assert ps[1..] == DecodePostings(b[POSTING_ENTRY_SIZE..]);
      Slices(b, POSTING_ENTRY_SIZE, 0);
    }
  }

  lemma {:induction false} EncodePostingsConcat(a: seq<Posting>, b: seq<Posting>)
    ensures EncodePostings(a + b) == EncodePostings(a) + EncodePostings(b)
  {
    hide EncodePosting;
    if a == [] {
      assert a + b == b;
    } else {
      SlicesOfConcat(a, b, 1);
      EncodePostingsConcat(a[1..], b);
      ConcatAssoc(EncodePosting(a[0]), EncodePostings(a[1..]), EncodePostings(b));
    }
  }

  // ---- lookup.bin ----

  function EncodeLookup(e: LookupEntry): (b: seq<byte>)
    ensures |b| == LOOKUP_ENTRY_SIZE
  {
    Le(4, e.trigram) + Le(8, e.offset) + Le(4, e.length)
  }

  function DecodeLookup(b: seq<byte>): LookupEntry
    requires |b| == LOOKUP_ENTRY_SIZE
  {
    Widths();
    LookupEntry(FromLe(b[..4]), FromLe(b[4..12]), FromLe(b[12..]))
  }

  lemma LookupRoundTrip(e: LookupEntry)
    ensures DecodeLookup(EncodeLookup(e)) == e
  {
    Widths();
    FromLeOfLe(4, e.trigram);
    FromLeOfLe(8, e.offset);
    FromLeOfLe(4, e.length);
    var b := EncodeLookup(e);
    assert b[..4] == Le(4, e.trigram) && b[4..12] == Le(8, e.offset) && b[12..] == Le(4, e.length);
  }

  /** Byte for byte: trigram, offset and length, each with its least significant byte first. */
  lemma LookupEntryBytes(e: LookupEntry)
    ensures var b := EncodeLookup(e);
            |b| == 16 && IsU32(b[0..4], e.trigram) && IsU64(b[4..12], e.offset) && IsU32(b[12..16], e.length)
  {
    LeDigits(e.trigram);
    LeDigits(e.offset);
    LeDigits(e.length);
    var b := EncodeLookup(e);
    assert b[0..4] == Le(4, e.trigram) && b[4..12] == Le(8, e.offset) && b[12..16] == Le(4, e.length);
  }

  lemma LookupEntryOfBytes(b: seq<byte>)
    requires |b| == 16
    ensures var e := DecodeLookup(b);
            IsU32(b[0..4], e.trigram) && IsU64(b[4..12], e.offset) && IsU32(b[12..16], e.length)
  {
    FromLeDigits(b[..4]);
    FromLeDigits(b[4..12]);
    FromLeDigits(b[12..]);
    assert b[0..4] == b[..4] && b[12..16] == b[12..];
  }

  // ---- files.bin ----

  function EncodeFile(e: FileEntry): (b: seq<byte>)
    ensures |b| == FILE_HEADER_SIZE + |e.path|
  {
    Le(4, e.id) + Le(2, |e.path|) + e.path
  }

  /** Byte for byte: the id and the length of the path, least significant bytes first, then the path. */
  lemma FileBytes(e: FileEntry)
    requires |e.path| <= 65535
    ensures var b := EncodeFile(e);
            && |b| == 6 + |e.path|
            && IsU32(b[0..4], e.id) && IsU16(b[4..6], |e.path|) && b[6..] == e.path
  {
    LeDigits(e.id);
    LeDigits(|e.path|);
    var b := EncodeFile(e);
    assert b[0..4] == Le(4, e.id) && b[4..6] == Le(2, |e.path|);
  }

  function EncodeFiles(es: seq<FileEntry>): seq<byte> {
    if es == [] then [] else EncodeFile(es[0]) + EncodeFiles(es[1..])
  }

  /** A path the format can hold: a string of at most 65535 bytes. */
  ghost predicate Storable(path: seq<byte>) {
    |path| <= MAX_PATH_LEN && Utf8.WellFormed(path)
  }

  /** Append one record to the sink, or refuse a path the length field cannot hold. */
  method WriteFileEntry(sink: seq<byte>, id: u32, path: seq<byte>) returns (r: Result<seq<byte>>)
    ensures r == if |path| <= MAX_PATH_LEN then Ok(sink + EncodeFile(FileEntry(id, path))) else Err
    ensures r.Ok? <==> |path| <= 65535
    ensures r.Ok? ==>
              && sink <= r.value && |r.value| == |sink| + 6 + |path|
              && var b := r.value[|sink|..];
              IsU32(b[0..4], id) && IsU16(b[4..6], |path|) && b[6..] == path
  {
    if |path| > MAX_PATH_LEN {
      return Err;
    }
    FileBytes(FileEntry(id, path));
    assert (sink + EncodeFile(FileEntry(id, path)))[|sink|..] == EncodeFile(FileEntry(id, path));
    var out := sink + Le(4, id);
    out := out + Le(2, |path|);
    out := out + path;
    assert out == sink + EncodeFile(FileEntry(id, path));
    return Ok(out);
  }

  /** Declared path length of the record at the front of `data`. */
  function DeclaredLen(data: seq<byte>): nat
    requires |data| >= FILE_HEADER_SIZE
  {
    FromLe(data[4..6])
  }

  function FileAtFront(data: seq<byte>): FileEntry
    requires |data| >= FILE_HEADER_SIZE && FILE_HEADER_SIZE + DeclaredLen(data) <= |data|
  {
    Widths();
    FileEntry(FromLe(data[..4]), Repair(data[FILE_HEADER_SIZE..FILE_HEADER_SIZE + DeclaredLen(data)]))
  }

  function DecodeFiles(data: seq<byte>): Result<seq<FileEntry>>
    decreases |data|
  {
    if data == [] then Ok([])
    else if |data| < FILE_HEADER_SIZE || FILE_HEADER_SIZE + DeclaredLen(data) > |data| then Err
    else
      match DecodeFiles(data[FILE_HEADER_SIZE + DeclaredLen(data)..])
      case Err => Err
      case Ok(rest) => Ok([FileAtFront(data)] + rest)
  }

  function Prepend(pre: seq<FileEntry>, r: Result<seq<FileEntry>>): Result<seq<FileEntry>> {
    match r
    case Err => Err
    case Ok(rest) => Ok(pre + rest)
  }

  lemma PrependEdges(r: Result<seq<FileEntry>>, pre: seq<FileEntry>)
    ensures Prepend([], r) == r
    ensures Prepend(pre, Ok([])) == Ok(pre)
  {
    if r.Ok? {
      assert [] + r.value == r.value;
    }
    assert pre + [] == pre;
  }

  lemma PrependTwice(pre: seq<FileEntry>, e: FileEntry, r: Result<seq<FileEntry>>)
    ensures Prepend(pre, Prepend([e], r)) == Prepend(pre + [e], r)
  {
    if r.Ok? {
      ConcatAssoc(pre, [e], r.value);
    }
  }

  method DecodeFileEntries(data: seq<byte>) returns (r: Result<seq<FileEntry>>)
    ensures r == DecodeFiles(data)
  {
    hide Repair, Le, FromLe, DecodeFiles, Prepend;
    var entries: seq<FileEntry> := [];
    var pos := 0;
    assert data[0..] == data;
    PrependEdges(DecodeFiles(data), []);
    while pos < |data|
      invariant 0 <= pos <= |data|
      invariant DecodeFiles(data) == Prepend(entries, DecodeFiles(data[pos..]))
    {
      ghost var front := data[pos..];
      if pos + FILE_HEADER_SIZE > |data| {
        RejectsFront(entries, front);
        return Err;
      }
      Widths();
      assert front[..4] == data[pos..pos + 4] && front[4..6] == data[pos + 4..pos + 6];
      var id := FromLe(data[pos..pos + 4]);
      var pathLen := FromLe(data[pos + 4..pos + 6]);
      pos := pos + FILE_HEADER_SIZE;
      if pos + pathLen > |data| {
        RejectsFront(entries, front);
        return Err;
      }
      assert front[6..6 + pathLen] == data[pos..pos + pathLen];
      assert front[6 + pathLen..] == data[pos + pathLen..];
      AcceptsFront(front);
      PrependTwice(entries, FileAtFront(front), DecodeFiles(data[pos + pathLen..]));
      entries := entries + [FileEntry(id, Repair(data[pos..pos + pathLen]))];
      pos := pos + pathLen;
    }
    assert data[pos..] == [];
    DecodeEmpty();
    PrependEdges(Err, entries);
    return Ok(entries);
  }

  /** Reading the front of a file that starts with one whole record. */
  lemma FrontOfRecord(e: FileEntry, tail: seq<byte>)
    requires Storable(e.path)
    ensures var data := EncodeFile(e) + tail;
            && |data| >= FILE_HEADER_SIZE
            && DeclaredLen(data) == |e.path| && FILE_HEADER_SIZE + |e.path| <= |data|
            && FileAtFront(data) == e
            && data[FILE_HEADER_SIZE + |e.path|..] == tail
  {
    hide Utf8.WellFormed;
    Widths();
    FromLeOfLe(4, e.id);
    FromLeOfLe(2, |e.path|);
    RepairIsWellFormed(e.path);
    var data := EncodeFile(e) + tail;
    assert data[..4] == Le(4, e.id);
    assert data[4..6] == Le(2, |e.path|);
    assert data[6..6 + |e.path|] == e.path;
  }

  /** A record cut short is rejected, wherever the cut falls. */
  lemma CutRecord(e: FileEntry, k: nat)
    requires Storable(e.path)
    requires 0 < k < |EncodeFile(e)|
    ensures DecodeFiles(EncodeFile(e)[..k]).Err?
  {
    hide Utf8.WellFormed, Repair, DecodeFiles;
    var data := EncodeFile(e)[..k];
    if k >= FILE_HEADER_SIZE {
      Widths();
      FromLeOfLe(2, |e.path|);
      assert data[4..6] == Le(2, |e.path|);
    }
    RejectsFront([], data);
  }

  lemma RejectsFront(pre: seq<FileEntry>, data: seq<byte>)
    requires data != []
    requires |data| < FILE_HEADER_SIZE || FILE_HEADER_SIZE + DeclaredLen(data) > |data|
    ensures DecodeFiles(data).Err? && Prepend(pre, DecodeFiles(data)).Err?
  {
  }

  lemma AcceptsFront(data: seq<byte>)
    requires |data| >= FILE_HEADER_SIZE && FILE_HEADER_SIZE + DeclaredLen(data) <= |data|
    ensures DecodeFiles(data)
         == Prepend([FileAtFront(data)], DecodeFiles(data[FILE_HEADER_SIZE + DeclaredLen(data)..]))
  {
  }

  /**
   * Truncation: cut at any length, the file decodes to a prefix of its entries if the cut falls
   * on a record boundary, and is rejected otherwise. Uncut, it decodes to all of them.
   */
  lemma {:induction false} DecodeTruncated(es: seq<FileEntry>, k: nat)
    requires forall i :: 0 <= i < |es| ==> Storable(es[i].path)
    requires k <= |EncodeFiles(es)|
    ensures match DecodeFiles(EncodeFiles(es)[..k])
            case Ok(got) => got <= es && k == |EncodeFiles(got)|
            case Err => forall j :: 0 <= j <= |es| ==> k != |EncodeFiles(es[..j])|
  {
    hide EncodeFile, FileAtFront, DecodeFiles, Storable;
    if es == [] || k == 0 {
      DecodeEmpty();
      assert EncodeFiles(es)[..k] == [] && EncodeFiles([]) == [];
    } else {
      var first, rest := EncodeFile(es[0]), EncodeFiles(es[1..]);
      var n := |first|;
      forall j | 1 <= j <= |es|
        ensures |EncodeFiles(es[..j])| == n + |EncodeFiles(es[1..][..j - 1])|
      {
        assert es[..j][1..] == es[1..][..j - 1];
      }
      if k < n {
        CutRecord(es[0], k);
        assert EncodeFiles(es)[..k] == first[..k];
      } else {
        DecodeTruncated(es[1..], k - n);
        assert EncodeFiles(es)[..k] == first + rest[..k - n];
        FrontOfRecord(es[0], rest[..k - n]);
        AcceptsFront(EncodeFiles(es)[..k]);
        var tail := DecodeFiles(rest[..k - n]);
        if tail.Ok? {
          var got := [es[0]] + tail.value;
          assert got[1..] == tail.value && es == [es[0]] + es[1..];
        }
      }
    }
  }

  lemma DecodeEmpty()
    ensures DecodeFiles([]) == Ok([])
  {
  }

  /** Decoding inverts the concatenation of the written records. */
  lemma {:induction false} FilesRoundTrip(es: seq<FileEntry>)
    requires forall i :: 0 <= i < |es| ==> Storable(es[i].path)
    ensures DecodeFiles(EncodeFiles(es)) == Ok(es)
  {
    hide EncodeFile, FileAtFront, DecodeFiles, Storable;
    if es == [] {
      DecodeEmpty();
    } else {
      FilesRoundTrip(es[1..]);
      FrontOfRecord(es[0], EncodeFiles(es[1..]));
      AcceptsFront(EncodeFiles(es));
      assert es == [es[0]] + es[1..];
    }
  }

  lemma {:induction false} EncodeFilesConcat(a: seq<FileEntry>, b: seq<FileEntry>)
    ensures EncodeFiles(a + b) == EncodeFiles(a) + EncodeFiles(b)
  {
    hide EncodeFile;
    if a == [] {
      assert a + b == b;
    } else {
      SlicesOfConcat(a, b, 1);
      EncodeFilesConcat(a[1..], b);
      ConcatAssoc(EncodeFile(a[0]), EncodeFiles(a[1..]), EncodeFiles(b));
    }
  }
}
