/** Sorted sets of block ranges: insertion, overlap, and the file pieces that a set stands for. */
module RangeSets {
  import opened Bytes

  const BLOCK_SIZE: nat := 4096

  /** Blocks first, first + 1, .., second - 1. */
  datatype Range = Range(first: nat, second: nat)

  predicate InRange(r: Range, b: nat) { r.first <= b < r.second }

  ghost predicate Covers(rs: seq<Range>, b: nat) {
    exists i :: 0 <= i < |rs| && InRange(rs[i], b)
  }

  ghost predicate NonEmpty(rs: seq<Range>) {
    forall i :: 0 <= i < |rs| ==> rs[i].first < rs[i].second
  }

  /** In order, with a gap between any two ranges. */
  ghost predicate Separated(rs: seq<Range>) {
    NonEmpty(rs) && forall i, j :: 0 <= i < j < |rs| ==> rs[i].second < rs[j].first
  }

  function Total(rs: seq<Range>): (n: int) {
    if rs == [] then 0 else rs[0].second - rs[0].first + Total(rs[1..])
  }

  lemma {:induction false} TotalAppend(a: seq<Range>, b: seq<Range>)
    ensures Total(a + b) == Total(a) + Total(b)
  {
    if a == [] {
      assert a + b == b;
    } else {
      TotalAppend(a[1..], b);
      assert (a + b)[1..] == a[1..] + b;
    }
  }

  lemma CoversHead(rs: seq<Range>, b: nat)
    requires rs != []
    ensures Covers(rs, b) <==> InRange(rs[0], b) || Covers(rs[1..], b)
  {
    if i :| 0 <= i < |rs| && InRange(rs[i], b) {
      if i > 0 { assert InRange(rs[1..][i - 1], b); }
    }
    if i :| 0 <= i < |rs[1..]| && InRange(rs[1..][i], b) { assert InRange(rs[i + 1], b); }
  }

  lemma CoversAppend(a: seq<Range>, b: seq<Range>, x: nat)
    ensures Covers(a + b, x) <==> Covers(a, x) || Covers(b, x)
  {
    if i :| 0 <= i < |a + b| && InRange((a + b)[i], x) {
      if i < |a| { assert InRange(a[i], x); } else { assert InRange(b[i - |a|], x); }
    }
    if i :| 0 <= i < |a| && InRange(a[i], x) { assert InRange((a + b)[i], x); }
    if i :| 0 <= i < |b| && InRange(b[i], x) { assert InRange((a + b)[|a| + i], x); }
  }

  // ----- sorting

  /** The order of std::pair. */
  predicate Before(r: Range, s: Range) {
    r.first < s.first || (r.first == s.first && r.second <= s.second)
  }

  function Place(r: Range, rs: seq<Range>): (s: seq<Range>)
    ensures |s| == |rs| + 1
  {
    if rs == [] || Before(r, rs[0]) then [r] + rs else [rs[0]] + Place(r, rs[1..])
  }

  function Sort(rs: seq<Range>): (s: seq<Range>)
    ensures |s| == |rs|
  {
    if rs == [] then [] else Place(rs[0], Sort(rs[1..]))
  }

  ghost predicate Ascending(rs: seq<Range>) {
    forall i, j :: 0 <= i < j < |rs| ==> Before(rs[i], rs[j])
  }

  lemma {:induction false} PlaceSorts(r: Range, rs: seq<Range>)
    requires Ascending(rs)
    ensures Ascending(Place(r, rs))
    ensures forall x :: x in Place(r, rs) <==> x == r || x in rs
    ensures Total(Place(r, rs)) == r.second - r.first + Total(rs)
  {
    var s := Place(r, rs);
    if rs == [] || Before(r, rs[0]) {
      assert s[1..] == rs;
    } else {
      PlaceSorts(r, rs[1..]);
      assert s[1..] == Place(r, rs[1..]);
      forall j | 0 < j < |s| ensures Before(s[0], s[j]) {
        assert s[j] == s[1..][j - 1] && s[j] in s[1..];
      }
      assert forall x :: x in rs <==> x == rs[0] || x in rs[1..];
    }
  }

  lemma {:induction false} SortSorts(rs: seq<Range>)
    ensures Ascending(Sort(rs))
    ensures forall x :: x in Sort(rs) <==> x in rs
    ensures Total(Sort(rs)) == Total(rs)
  {
    if rs != [] {
      SortSorts(rs[1..]);
      PlaceSorts(rs[0], Sort(rs[1..]));
      assert forall x :: x in rs <==> x == rs[0] || x in rs[1..];
    }
  }

  lemma SameMembersCover(a: seq<Range>, b: seq<Range>, x: nat)
    requires forall r :: r in a <==> r in b
    ensures Covers(a, x) <==> Covers(b, x)
  {
    if i :| 0 <= i < |a| && InRange(a[i], x) { assert a[i] in b; }
    if i :| 0 <= i < |b| && InRange(b[i], x) { assert b[i] in a; }
  }

  // ----- trimming overlaps

  /** Join ranges that overlap or touch. */
  function Trim(cur: Range, rest: seq<Range>): (s: seq<Range>)
    decreases |rest|
    ensures s != []
  {
    if rest == [] then [cur]
    else if rest[0].first <= cur.second then
      Trim(Range(cur.first, if cur.second < rest[0].second then rest[0].second else cur.second), rest[1..])
    else [cur] + Trim(rest[0], rest[1..])
  }

  lemma {:induction false} TrimSeparates(cur: Range, rest: seq<Range>)
    requires cur.first < cur.second && NonEmpty(rest) && Ascending(rest)
    requires forall i :: 0 <= i < |rest| ==> cur.first <= rest[i].first
    ensures Separated(Trim(cur, rest)) && Trim(cur, rest)[0].first == cur.first
    ensures forall b :: Covers(Trim(cur, rest), b) <==> InRange(cur, b) || Covers(rest, b)
    ensures 0 < Total(Trim(cur, rest)) <= cur.second - cur.first + Total(rest)
    decreases |rest|
  {
    var s := Trim(cur, rest);
    if rest == [] {
      assert InRange(s[0], cur.first);
      assert s[1..] == [];
    } else {
      var r, more := rest[0], rest[1..];
      forall b ensures Covers(rest, b) <==> InRange(r, b) || Covers(more, b) { CoversHead(rest, b); }
      if r.first <= cur.second {
        var cur' := Range(cur.first, if cur.second < r.second then r.second else cur.second);
        TrimSeparates(cur', more);
        assert forall b :: InRange(cur', b) <==> InRange(cur, b) || InRange(r, b);
      } else {
        assert forall i :: 0 <= i < |more| ==> more[i] == rest[i + 1];
        TrimSeparates(r, more);
        var tail := Trim(r, more);
        assert s[1..] == tail;
        forall b ensures Covers(s, b) <==> InRange(cur, b) || Covers(tail, b) { CoversHead(s, b); }
        SeparatedHead(cur, tail);
      }
    }
  }

  lemma SeparatedHead(cur: Range, tail: seq<Range>)
    requires cur.first < cur.second && Separated(tail) && tail != [] && cur.second < tail[0].first
    ensures Separated([cur] + tail)
  {
    var s := [cur] + tail;
    forall i, j | 0 <= i < j < |s| ensures s[i].second < s[j].first {
      assert s[j] == tail[j - 1];
      if i == 0 {
        if j > 1 { assert tail[0].second < tail[j - 1].first; }
      } else {
        assert s[i] == tail[i - 1];
      }
    }
  }

  /** The set after inserting `more`. */
  function Union(rs: seq<Range>, more: seq<Range>): (s: seq<Range>) {
    if more == [] then rs
    else var temp := Sort(rs + more); Trim(temp[0], temp[1..])
  }

  /** Insertion is union of blocks; it keeps the set sorted and separated. */
  lemma UnionCovers(rs: seq<Range>, more: seq<Range>)
    requires Separated(rs) && NonEmpty(more)
    ensures Separated(Union(rs, more))
    ensures forall b :: Covers(Union(rs, more), b) <==> Covers(rs, b) || Covers(more, b)
    ensures Total(Union(rs, more)) <= Total(rs) + Total(more)
  {
    if more == [] {
      assert forall b :: !Covers(more, b);
    } else {
      var temp := Sort(rs + more);
      SortSorts(rs + more);
      TotalAppend(rs, more);
      forall i | 0 <= i < |temp| ensures temp[i].first < temp[i].second { assert temp[i] in rs + more; }
      assert temp == [temp[0]] + temp[1..];
      TrimSeparates(temp[0], temp[1..]);
      forall b ensures Covers(Union(rs, more), b) <==> Covers(rs, b) || Covers(more, b) {
        CoversHead(temp, b);
        SameMembersCover(temp, rs + more, b);
        CoversAppend(rs, more, b);
      }
    }
  }

  // ----- bytes and blocks

  /** The blocks that bytes start .. start+len-1 of a file occupy. */
  function Occupied(start: nat, len: nat): (r: Range)
    requires len > 0
    ensures r.first < r.second
  {
    Range(start / BLOCK_SIZE, (start + len - 1) / BLOCK_SIZE + 1)
  }

  ghost predicate Overlapping(rs: seq<Range>, more: seq<Range>) {
    exists b :: Covers(rs, b) && Covers(more, b)
  }

  ghost predicate CoversAll(rs: seq<Range>, start: nat, len: nat)
    requires len > 0
  {
    forall b :: InRange(Occupied(start, len), b) ==> Covers(rs, b)
  }

  /** SortedRangeSet: the ranges and the number of blocks, updated in place. */
  class SortedRangeSet {
    var ranges: seq<Range>
    var blocks: int

    ghost predicate Valid()
      reads this
    {
      Separated(ranges) && blocks == Total(ranges)
    }

    constructor ()
      ensures Valid() && ranges == []
    {
      ranges, blocks := [], 0;
    }

    method Clear()
      modifies this
      ensures Valid() && ranges == []
    {
      ranges, blocks := [], 0;
    }

    /** Insert all ranges of another set. */
    method InsertRanges(more: seq<Range>)
      requires Valid() && NonEmpty(more)
      modifies this
      ensures Valid() && ranges == Union(old(ranges), more)
    {
      hide Sort, Separated;
      if |more| == 0 { return; }
      UnionCovers(ranges, more);
      var temp := Sort(ranges + more);
      ghost var all := Union(ranges, more);
      ranges, blocks := [], 0;
      var toInsert := temp[0];
      for i := 1 to |temp|
        invariant ranges + Trim(toInsert, temp[i..]) == all
        invariant blocks == Total(ranges)
      {
        assert temp[i..][1..] == temp[i + 1..];
        if temp[i].first <= toInsert.second {
          toInsert := Range(toInsert.first,
                            if toInsert.second < temp[i].second then temp[i].second else toInsert.second);
        } else {
          ConcatAssoc(ranges, [toInsert], Trim(temp[i], temp[i + 1..]));
          TotalSnoc(ranges, toInsert);
          ranges, blocks := ranges + [toInsert], blocks + (toInsert.second - toInsert.first);
          toInsert := temp[i];
        }
      }
      assert temp[|temp|..] == [];
      TotalSnoc(ranges, toInsert);
      ranges, blocks := ranges + [toInsert], blocks + (toInsert.second - toInsert.first);
    }

    /** Insert the blocks of a stretch of the file. */
    method Insert(start: nat, len: nat)
      requires Valid() && len > 0
      modifies this
      ensures Valid() && ranges == Union(old(ranges), [Occupied(start, len)])
    {
      InsertRanges([Range(start / BLOCK_SIZE, (start + len - 1) / BLOCK_SIZE + 1)]);
    }

    method OverlapsRanges(more: seq<Range>) returns (yes: bool)
      requires Valid() && NonEmpty(more)
      ensures yes <==> Overlapping(ranges, more)
    {
      for i := 0 to |ranges|
        invariant forall k, j :: 0 <= k < i && 0 <= j < |more| ==> Apart(ranges[k], more[j])
      {
        var r := ranges[i];
        for j := 0 to |more|
          invariant forall l :: 0 <= l < j ==> Apart(r, more[l])
        {
          if !(more[j].first >= r.second || r.first >= more[j].second) {
            var b := if r.first < more[j].first then more[j].first else r.first;
            assert InRange(ranges[i], b) && InRange(more[j], b);
            assert Covers(ranges, b) && Covers(more, b);
            return true;
          }
        }
      }
      return false;
    }

    method Overlaps(start: nat, len: nat) returns (yes: bool)
      requires Valid() && len > 0
      ensures yes <==> Overlapping(ranges, [Occupied(start, len)])
    {
      yes := OverlapsRanges([Range(start / BLOCK_SIZE, (start + len - 1) / BLOCK_SIZE + 1)]);
    }
  }

  predicate Apart(r: Range, s: Range) { s.first >= r.second || r.first >= s.second }

  lemma TotalSnoc(rs: seq<Range>, r: Range)
    ensures Total(rs + [r]) == Total(rs) + (r.second - r.first)
  {
    TotalAppend(rs, [r]);
    assert [r][1..] == [];
  }

  // ----- the bytes of a set of ranges

  predicate WithinFile(rs: seq<Range>, size: nat) {
    forall i :: 0 <= i < |rs| ==> (rs[i].second - 1) * BLOCK_SIZE < size
  }

  function RangeEnd(r: Range, size: nat): (n: nat) {
    if size < r.second * BLOCK_SIZE then size else r.second * BLOCK_SIZE
  }

  predicate Readable(r: Range, size: nat) {
    r.first * BLOCK_SIZE <= RangeEnd(r, size)
  }

  function RangeBytes(r: Range, file: seq<byte>): (s: seq<byte>)
    requires Readable(r, |file|)
    ensures |s| == RangeEnd(r, |file|) - r.first * BLOCK_SIZE
  {
    file[r.first * BLOCK_SIZE..RangeEnd(r, |file|)]
  }

  /** The pieces of the file that the ranges stand for, concatenated. */
  function Gather(rs: seq<Range>, file: seq<byte>): (s: seq<byte>)
    requires forall i :: 0 <= i < |rs| ==> Readable(rs[i], |file|)
  {
    if rs == [] then [] else RangeBytes(rs[0], file) + Gather(rs[1..], file)
  }

  /** GetOffsetInRangeSet: where an offset of the file is found in the gathered bytes. */
  function NewOffset(rs: seq<Range>, offset: nat): (r: Option<nat>) {
    if rs == [] then None
    else
      var b := offset / BLOCK_SIZE;
      if b >= rs[0].second then
        match NewOffset(rs[1..], offset)
        case None => None
        case Some(n) =>
          if rs[0].first <= rs[0].second then Some((rs[0].second - rs[0].first) * BLOCK_SIZE + n) else None
      else if b >= rs[0].first then Some((b - rs[0].first) * BLOCK_SIZE + offset % BLOCK_SIZE)
      else None
  }

  method GetOffsetInRangeSet(rs: seq<Range>, offset: nat) returns (r: Option<nat>)
    requires NonEmpty(rs)
    ensures r == NewOffset(rs, offset)
  {
    var oldBlock, newBlock: nat := offset / BLOCK_SIZE, 0;
    for i := 0 to |rs|
      invariant NewOffset(rs, offset) ==
        match NewOffset(rs[i..], offset) { case None => None case Some(n) => Some(newBlock * BLOCK_SIZE + n) }
    {
      assert rs[i..][1..] == rs[i + 1..];
      if oldBlock >= rs[i].second {
        newBlock := newBlock + (rs[i].second - rs[i].first);
      } else if oldBlock >= rs[i].first {
        newBlock := newBlock + (oldBlock - rs[i].first);
        return Some(newBlock * BLOCK_SIZE + offset % BLOCK_SIZE);
      } else {
        return None;
      }
    }
    return None;
  }

  lemma RangesReadable(rs: seq<Range>, file: seq<byte>)
    requires NonEmpty(rs) && WithinFile(rs, |file|)
    ensures forall i :: 0 <= i < |rs| ==> Readable(rs[i], |file|)
  {
    forall i | 0 <= i < |rs| ensures Readable(rs[i], |file|) {
      assert rs[i].first <= rs[i].second - 1;
    }
  }

  lemma SeparatedTail(rs: seq<Range>)
    requires rs != [] && Separated(rs)
    ensures Separated(rs[1..])
  {
    assert forall i :: 0 <= i < |rs[1..]| ==> rs[1..][i] == rs[i + 1];
  }

  /** A window of a sequence, seen behind something put in front of it. */
  lemma WindowBehind(head: seq<byte>, tail: seq<byte>, at: nat, len: nat)
    requires at + len <= |tail|
    ensures (head + tail)[|head| + at..|head| + at + len] == tail[at..at + len]
  {}

  lemma WindowInFront(head: seq<byte>, tail: seq<byte>, at: nat, len: nat)
    requires at + len <= |head|
    ensures (head + tail)[at..at + len] == head[at..at + len]
  {}

  lemma SliceOfSlice(s: seq<byte>, lo: nat, hi: nat, i: nat, j: nat)
    requires lo <= hi <= |s| && i <= j <= hi - lo
    ensures s[lo..hi][i..j] == s[lo + i..lo + j]
  {
    var w := s[lo..hi];
    forall k | i <= k < j ensures w[k] == s[lo + k] {}
    assert forall k :: 0 <= k < j - i ==> w[i..j][k] == w[i + k];
  }

  lemma InsideFirst(r: Range, file: seq<byte>, start: nat, len: nat)
    requires Readable(r, |file|) && start + len <= |file| && len > 0
    requires r.first <= start / BLOCK_SIZE && (start + len - 1) / BLOCK_SIZE < r.second
    ensures var at := (start / BLOCK_SIZE - r.first) * BLOCK_SIZE + start % BLOCK_SIZE;
            at + len <= |RangeBytes(r, file)| && RangeBytes(r, file)[at..at + len] == file[start..start + len]
  {
    var at := (start / BLOCK_SIZE - r.first) * BLOCK_SIZE + start % BLOCK_SIZE;
    assert at == start - r.first * BLOCK_SIZE;
    assert start + len <= r.second * BLOCK_SIZE;
    SliceOfSlice(file, r.first * BLOCK_SIZE, RangeEnd(r, |file|), at, at + len);
  }

  lemma FullRange(r: Range, file: seq<byte>, start: nat)
    requires Readable(r, |file|) && r.first <= r.second <= start / BLOCK_SIZE && start < |file|
    ensures |RangeBytes(r, file)| == (r.second - r.first) * BLOCK_SIZE
  {
    assert r.second * BLOCK_SIZE <= start;
  }

  /** A stretch of the file whose blocks all belong to the set is found whole at its new offset. */
  lemma {:induction false} RelocatedBytes(rs: seq<Range>, file: seq<byte>, start: nat, len: nat)
    requires Separated(rs) && WithinFile(rs, |file|)
    requires len > 0 && start + len <= |file| && CoversAll(rs, start, len)
    ensures forall i :: 0 <= i < |rs| ==> Readable(rs[i], |file|)
    ensures NewOffset(rs, start).Some?
    ensures var at := NewOffset(rs, start).value;
            at + len <= |Gather(rs, file)| && Gather(rs, file)[at..at + len] == file[start..start + len]
  {
    hide RangeBytes, Readable;
    RangesReadable(rs, file);
    var first := start / BLOCK_SIZE;
    assert InRange(Occupied(start, len), first);
    assert Covers(rs, first);
    var r, rest := rs[0], rs[1..];
    var head, tail := RangeBytes(r, file), Gather(rest, file);
    assert Gather(rs, file) == head + tail;
    if first >= r.second {
      StretchBeyond(rs, start, len);
      SeparatedTail(rs);
      assert WithinFile(rest, |file|) by {
        assert forall i :: 0 <= i < |rest| ==> rest[i] == rs[i + 1];
      }
      RelocatedBytes(rest, file, start, len);
      FullRange(r, file, start);
      WindowBehind(head, tail, NewOffset(rest, start).value, len);
    } else {
      StretchInside(rs, start, len);
      InsideFirst(r, file, start, len);
      WindowInFront(head, tail, NewOffset(rs, start).value, len);
    }
  }

  lemma StretchBeyond(rs: seq<Range>, start: nat, len: nat)
    requires rs != [] && len > 0 && CoversAll(rs, start, len)
    requires start / BLOCK_SIZE >= rs[0].second
    ensures CoversAll(rs[1..], start, len)
  {
    forall b | InRange(Occupied(start, len), b) ensures Covers(rs[1..], b) {
      CoversHead(rs, b);
    }
  }

  lemma GapAfterFirst(rs: seq<Range>)
    requires rs != [] && Separated(rs)
    ensures !Covers(rs, rs[0].second)
  {
    forall j | 0 <= j < |rs| ensures !InRange(rs[j], rs[0].second) {
      if j > 0 { assert rs[0].second < rs[j].first; }
    }
  }

  /** Consecutive covered blocks lie in a single range, because ranges never touch. */
  lemma StretchInside(rs: seq<Range>, start: nat, len: nat)
    requires rs != [] && Separated(rs) && len > 0 && CoversAll(rs, start, len)
    requires start / BLOCK_SIZE < rs[0].second
    ensures rs[0].first <= start / BLOCK_SIZE && (start + len - 1) / BLOCK_SIZE < rs[0].second
  {
    var first, last := start / BLOCK_SIZE, (start + len - 1) / BLOCK_SIZE;
    assert InRange(Occupied(start, len), first);
    assert Covers(rs, first);
    var i :| 0 <= i < |rs| && InRange(rs[i], first);
    assert forall j :: 0 < j < |rs| ==> rs[0].second < rs[j].first;
    GapAfterFirst(rs);
  }
}
