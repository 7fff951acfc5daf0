/** Looking a trigram up in an opened index. */
module Query {
  import opened Bytes
  import opened OnDisk
  import opened IndexImage
  import opened Merging
  import opened MergeMeaning
  import opened StreamingMerge

  /** How many whole postings of a claimed range `index.bin` really holds. */
  function Available(index: seq<byte>, offset: nat, length: nat): nat {
    if offset > |index| then 0 else Min(length, (|index| - offset) / POSTING_ENTRY_SIZE)
  }

  /** As many as are claimed, as long as the next six bytes exist. */
  lemma AvailableIsMost(index: seq<byte>, offset: nat, length: nat, n: nat)
    requires 1 <= n
    ensures n <= Available(index, offset, length) <==> n <= length && offset + 6 * n <= |index|
  {
  }

  /** Decode what a lookup entry points at; whatever it claims, only bytes that exist are read. */
  method ReadPostingEntries(index: seq<byte>, offset: u64, length: u32) returns (result: seq<Posting>)
    ensures var n := Available(index, offset, length);
            if n == 0 then result == []
            else offset + POSTING_ENTRY_SIZE * n <= |index|
                 && result == DecodePostings(index[offset..offset + POSTING_ENTRY_SIZE * n])
  {
    hide DecodePosting, DecodePostings;
    result := [];
    if offset > |index| {
      return;
    }
    var remaining := |index| - offset;
    var count := Min(length, remaining / POSTING_ENTRY_SIZE);
    ghost var bytes := index[offset..offset + POSTING_ENTRY_SIZE * count];
    for i := 0 to count
      invariant result == DecodePostings(bytes)[..i]
    {
      var pos := offset + i * POSTING_ENTRY_SIZE;
      DecodePostingsAt(bytes, i);
      SliceOfSlice(index, offset, offset + POSTING_ENTRY_SIZE * count, POSTING_ENTRY_SIZE * i, POSTING_ENTRY_SIZE * (i + 1));
      result := result + [DecodePosting(index[pos..pos + POSTING_ENTRY_SIZE])];
    }
  }

  function EntryAt(image: Image, i: nat): LookupEntry
    requires LOOKUP_ENTRY_SIZE * (i + 1) <= |image.lookup|
  {
    DecodeLookup(image.lookup[LOOKUP_ENTRY_SIZE * i..LOOKUP_ENTRY_SIZE * i + LOOKUP_ENTRY_SIZE])
  }

  /** `image` is what writing the well-formed index `ix` produced. */
  ghost predicate Holds(image: Image, ix: Index) {
    WellFormedIndex(ix) && image == Encode(ix)
  }

  lemma EntryOf(image: Image, ix: Index, i: nat)
    requires Holds(image, ix) && i < |ix.groups|
    ensures LOOKUP_ENTRY_SIZE * (i + 1) <= |image.lookup|
    ensures var e, g := EntryAt(image, i), ix.groups[i];
            && e.trigram == g.trigram && Available(image.index, e.offset, e.length) == |g.postings| > 0
            && e.offset + POSTING_ENTRY_SIZE * |g.postings| <= |image.index|
            && image.index[e.offset..e.offset + POSTING_ENTRY_SIZE * |g.postings|] == EncodePostings(g.postings)
  {
    hide IndexBytes, DecodeLookup, EncodePostings;
    Layout(ix, i);
    assert GoodList(ix.groups[i].postings, |ix.paths|);
  }

  /**
   * The query: binary search in `lookup.bin`, then the posting list. On any table it stays in
   * bounds and ends; on a written index it returns exactly the trigram's list.
   */
  method LookupTrigramWithMasks(image: Image, trigram: u32, ghost ix: Index) returns (result: seq<Posting>)
    ensures Holds(image, ix) ==> result == PostingsOf(ix.groups, trigram)
  {
    hide PostingsOf, Holds, EntryAt, DecodePostings, EncodePostings, Available;
    ghost var good := Holds(image, ix);
    if good {
      SizeOfTable(image, ix);
    }
    var n := if |image.index| == 0 then 0 else |image.lookup| / LOOKUP_ENTRY_SIZE;
    var lo, hi := 0, n;
    while lo < hi
      invariant 0 <= lo <= hi <= n
      invariant good ==> n == |ix.groups| && AscendingTrigrams(ix.groups)
      invariant good ==> forall i :: 0 <= i < lo ==> ix.groups[i].trigram < trigram
      invariant good ==> forall i :: hi <= i < n ==> trigram < ix.groups[i].trigram
    {
      var mid := lo + (hi - lo) / 2;
      var entry := EntryAt(image, mid);
      if good {
        EntryOf(image, ix, mid);
      }
      if entry.trigram == trigram {
        result := ReadPostingEntries(image.index, entry.offset, entry.length);
        if good {
          PostingsOfGroup(ix.groups, mid);
          PostingsRoundTrip(ix.groups[mid].postings);
        }
        return;
      } else if entry.trigram < trigram {
        lo := mid + 1;
      } else {
        hi := mid;
      }
    }
    if good {
      NoSuchTrigram(ix.groups, trigram);
    }
    return [];
  }

  lemma SizeOfTable(image: Image, ix: Index)
    requires Holds(image, ix)
    ensures |image.lookup| == LOOKUP_ENTRY_SIZE * |ix.groups| && AscendingTrigrams(ix.groups)
    ensures |image.index| == 0 ==> ix.groups == []
  {
    if ix.groups != [] {
      NonEmptyIndex(ix);
    }
  }

  lemma {:induction false} NoSuchTrigram(gs: seq<Group>, trigram: u32)
    requires forall i :: 0 <= i < |gs| ==> gs[i].trigram != trigram
    ensures PostingsOf(gs, trigram) == []
  {
    if gs != [] {
      NoSuchTrigram(gs[1..], trigram);
    }
  }

  /** What a query returns for a file is what the index means for its path. */
  lemma QueryReadsMeaning(ix: Index, i: nat, trigram: u32)
    requires WellFormedIndex(ix) && i < |ix.paths|
    ensures ix.paths[i] in Meaning(ix)
    ensures var found, known := MasksIn(PostingsOf(ix.groups, trigram), i), Meaning(ix)[ix.paths[i]];
            found == if trigram in known then Some(known[trigram]) else None
  {
    hide PostingsOf, TrigramsOf, Meaning, MasksIn;
    MeaningAt(ix, i);
    TrigramsOfMember(ix.groups, i, trigram);
  }
}
