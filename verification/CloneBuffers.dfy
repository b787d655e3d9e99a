/**
 Structured clone data: `JSStructuredCloneData` of `public/StructuredClone.h`, a list of
 byte segments that must behave like one flat sequence of bytes.
 */
module CloneBuffers {

  newtype byte = x: int | 0 <= x < 256

  /** The bytes of all segments, one after another. */
  ghost function Flatten(segments: seq<seq<byte>>): seq<byte> {
    if segments == [] then [] else Flatten(segments[..|segments| - 1]) + segments[|segments| - 1]
  }

  lemma FlattenAppend(segments: seq<seq<byte>>, s: seq<byte>)
    ensures Flatten(segments + [s]) == Flatten(segments) + s
  {
    assert (segments + [s])[..|segments|] == segments;
  }

  lemma {:induction false} FlattenConcat(a: seq<seq<byte>>, b: seq<seq<byte>>)
    ensures Flatten(a + b) == Flatten(a) + Flatten(b)
    decreases |b|
  {
    if b == [] {
      assert a + b == a;
    } else {
      var n := |b| - 1;
      FlattenConcat(a, b[..n]);
      assert (a + b)[..|a + b| - 1] == a + b[..n];
    }
  }

  /** A segment in its place among the flat bytes. */
  lemma FlattenAround(segments: seq<seq<byte>>, i: nat)
    requires i < |segments|
    ensures Flatten(segments) == Flatten(segments[..i]) + segments[i] + Flatten(segments[i + 1..])
    ensures Flatten(segments[..i + 1]) == Flatten(segments[..i]) + segments[i]
  {
    hide Flatten;
    FlattenNext(segments, i);
    SplitFlat(segments, i + 1);
  }

  lemma FlattenNext(segments: seq<seq<byte>>, i: nat)
    requires i < |segments|
    ensures Flatten(segments[..i + 1]) == Flatten(segments[..i]) + segments[i]
  {
    hide Flatten;
    FlattenAppend(segments[..i], segments[i]);
    assert segments[..i + 1] == segments[..i] + [segments[i]];
  }

  lemma SplitFlat(segments: seq<seq<byte>>, i: nat)
    requires i <= |segments|
    ensures Flatten(segments) == Flatten(segments[..i]) + Flatten(segments[i..])
  {
    hide Flatten;
    assert segments == segments[..i] + segments[i..];
    FlattenConcat(segments[..i], segments[i..]);
  }

  /** Replaces the bytes from `at` on by `data`. */
  ghost function Overwrite(flat: seq<byte>, at: nat, data: seq<byte>): seq<byte>
    requires at + |data| <= |flat|
  {
    flat[..at] + data + flat[at + |data|..]
  }

  ghost predicate NonEmptySegments(segments: seq<seq<byte>>) {
    forall i :: 0 <= i < |segments| ==> segments[i] != []
  }

  /** A place in a segment; only at the very end of the data may it be past a segment's last byte. */
  datatype Iterator = Iterator(segment: nat, offset: nat)

  ghost predicate IterValid(it: Iterator, segments: seq<seq<byte>>) {
    if segments == [] then it == Iterator(0, 0)
    else
      && it.segment < |segments|
      && it.offset <= |segments[it.segment]|
      && (it.offset == |segments[it.segment]| ==> it.segment == |segments| - 1)
  }

  /** The iterator's place among the flat bytes. */
  ghost function Position(it: Iterator, segments: seq<seq<byte>>): nat
    requires IterValid(it, segments)
  {
    if segments == [] then 0 else |Flatten(segments[..it.segment])| + it.offset
  }

  /** The byte in front of an iterator, in its segment, is the one at its place among the flat bytes. */
  lemma PositionReads(it: Iterator, segments: seq<seq<byte>>)
    requires it.segment < |segments| && it.offset < |segments[it.segment]|
    ensures IterValid(it, segments) && Position(it, segments) < |Flatten(segments)|
    ensures Flatten(segments)[Position(it, segments)] == segments[it.segment][it.offset]
  {
    hide Flatten;
    FlattenAround(segments, it.segment);
  }

  function RemainingInSegment(it: Iterator, segments: seq<seq<byte>>): nat
    requires IterValid(it, segments)
  {
    if segments == [] then 0 else |segments[it.segment]| - it.offset
  }

  predicate Done(it: Iterator, segments: seq<seq<byte>>)
    requires IterValid(it, segments)
  {
    segments == [] || it.offset == |segments[it.segment]|
  }

  /** Moves on within the segment, and to the next segment on reaching its end. */
  function Advance(it: Iterator, segments: seq<seq<byte>>, n: nat): (it': Iterator)
    requires IterValid(it, segments) && NonEmptySegments(segments) && n <= RemainingInSegment(it, segments)
    ensures IterValid(it', segments) && Position(it', segments) == Position(it, segments) + n
  {
    if segments == [] then it
    else
      FlattenAround(segments, it.segment);
      if it.offset + n == |segments[it.segment]| && it.segment + 1 < |segments| then Iterator(it.segment + 1, 0)
      else Iterator(it.segment, it.offset + n)
  }

  /** Some byte remains in the segment exactly when some byte remains at all. */
  lemma RemainingIff(it: Iterator, segments: seq<seq<byte>>)
    requires IterValid(it, segments) && NonEmptySegments(segments)
    ensures Position(it, segments) + RemainingInSegment(it, segments) <= |Flatten(segments)|
    ensures RemainingInSegment(it, segments) == 0 <==> Position(it, segments) == |Flatten(segments)|
    ensures Done(it, segments) <==> Position(it, segments) == |Flatten(segments)|
  {
    if segments != [] {
      FlattenAround(segments, it.segment);
      if it.segment == |segments| - 1 {
        assert segments[it.segment + 1..] == [];
      } else {
        var rest := segments[it.segment + 1..];
        FlattenAround(rest, 0);
        assert rest[0] == segments[it.segment + 1];
      }
    }
  }

  /** Overwriting part of one segment overwrites that part of the flat bytes. */
  lemma SegmentUpdate(segments: seq<seq<byte>>, it: Iterator, data: seq<byte>)
    requires IterValid(it, segments) && segments != [] && |data| <= RemainingInSegment(it, segments)
    ensures Position(it, segments) + |data| <= |Flatten(segments)|
    ensures Flatten(segments[it.segment := Overwrite(segments[it.segment], it.offset, data)])
         == Overwrite(Flatten(segments), Position(it, segments), data)
  {
    hide Flatten;
    var i := it.segment;
    var before, s, after := Flatten(segments[..i]), segments[i], Flatten(segments[i + 1..]);
    var changed := segments[i := Overwrite(s, it.offset, data)];
    FlattenAround(segments, i);
    FlattenAround(changed, i);
    assert changed[..i] == segments[..i] && changed[i + 1..] == segments[i + 1..];
    OverwriteMiddle(before, s, after, it.offset, data);
  }

  lemma OverwriteMiddle(before: seq<byte>, s: seq<byte>, after: seq<byte>, at: nat, data: seq<byte>)
    requires at + |data| <= |s|
    ensures before + Overwrite(s, at, data) + after == Overwrite(before + s + after, |before| + at, data)
  {
  }

  lemma LastSegmentGrows(segments: seq<seq<byte>>, more: seq<byte>)
    requires segments != [] && NonEmptySegments(segments)
    ensures var last := |segments| - 1;
            var grown := segments[..last] + [segments[last] + more];
            Flatten(grown) == Flatten(segments) + more && NonEmptySegments(grown)
  {
    var last := |segments| - 1;
    FlattenAppend(segments[..last], segments[last] + more);
  }

  lemma NewSegment(segments: seq<seq<byte>>, more: seq<byte>)
    requires more != [] && NonEmptySegments(segments)
    ensures Flatten(segments + [more]) == Flatten(segments) + more && NonEmptySegments(segments + [more])
  {
    FlattenAppend(segments, more);
  }

  lemma TakeMore(start: seq<byte>, written: seq<byte>, left: seq<byte>, n: nat)
    requires n <= |left|
    ensures start + written + left[..n] == start + (written + left[..n])
    ensures written + left == written + left[..n] + left[n..]
  {
  }

  /** Two adjacent overwrites are one. */
  lemma OverwriteTwice(flat: seq<byte>, at: nat, a: seq<byte>, b: seq<byte>)
    requires at + |a| + |b| <= |flat|
    ensures Overwrite(Overwrite(flat, at, a), at + |a|, b) == Overwrite(flat, at, a + b)
  {
  }

  lemma NothingOverwritten(flat: seq<byte>, at: nat)
    requires at <= |flat|
    ensures Overwrite(flat, at, []) == flat
  {
  }

  lemma OverwriteIs(flat: seq<byte>, at: nat, data: seq<byte>)
    requires at + |data| <= |flat|
    ensures Overwrite(flat, at, data) == flat[..at] + data + flat[at + |data|..]
  {
  }

  lemma OverwriteLength(flat: seq<byte>, at: nat, data: seq<byte>)
    requires at + |data| <= |flat|
    ensures |Overwrite(flat, at, data)| == |flat|
  {
  }

  /** An overwritten segment keeps its length, so every iterator keeps its meaning. */
  lemma UpdateKeepsPositions(segments: seq<seq<byte>>, it: Iterator, data: seq<byte>)
    requires IterValid(it, segments) && NonEmptySegments(segments) && segments != []
    requires |data| <= RemainingInSegment(it, segments)
    ensures var s := segments[it.segment];
            var s' := s[..it.offset] + data + s[it.offset + |data|..];
            var changed := segments[it.segment := s'];
            && s' == Overwrite(s, it.offset, data) && |s'| == |s|
            && NonEmptySegments(changed) && IterValid(it, changed)
            && Position(it, changed) == Position(it, segments)
            && RemainingInSegment(it, changed) == RemainingInSegment(it, segments)
  {
    var s := segments[it.segment];
    var s' := s[..it.offset] + data + s[it.offset + |data|..];
    assert segments[it.segment := s'][..it.segment] == segments[..it.segment];
  }

  function Min(a: nat, b: nat): nat {
    if a < b then a else b
  }

  class CloneData {
    const standardCapacity: nat
    var segments: seq<seq<byte>>

    // The room left in the last segment.
    var room: nat

    ghost predicate Valid()
      reads this
    {
      NonEmptySegments(segments) && standardCapacity > 0
    }

    ghost function Bytes(): seq<byte>
      reads this
    {
      Flatten(segments)
    }

    constructor ()
      ensures Valid() && Bytes() == []
    {
      standardCapacity, segments, room := 4096, [], 0;
    }

    /** `AppendBytes`: fills the last segment, then adds segments of the standard capacity. */
    method AppendBytes(data: seq<byte>)
      requires Valid()
      modifies this
      ensures Valid() && Bytes() == old(Bytes()) + data
      ensures |segments| >= |old(segments)|
    {
      hide Flatten, NonEmptySegments;
      var left := data;
      ghost var written: seq<byte> := [];
      assert Bytes() + [] == Bytes();
      while left != []
        invariant Valid() && |segments| >= |old(segments)|
        invariant written + left == data && Bytes() == old(Bytes()) + written
        decreases |left|
      {
        ghost var before := segments;
        var n;
        if segments != [] && room > 0 {
          n := Min(room, |left|);
          var last := |segments| - 1;
          LastSegmentGrows(segments, left[..n]);
          segments := segments[..last] + [segments[last] + left[..n]];
          room := room - n;
        } else {
          n := Min(standardCapacity, |left|);
          NewSegment(segments, left[..n]);
          segments := segments + [left[..n]];
          room := standardCapacity - n;
        }
        TakeMore(old(Bytes()), written, left, n);
        written, left := written + left[..n], left[n..];
      }
      assert written == data;
    }

    /**
     Overwrites the bytes from the iterator on, across segments, and nothing else, and
     leaves the iterator just past them.
     */
    method UpdateBytes(iter: Iterator, data: seq<byte>) returns (iter': Iterator)
      requires Valid() && IterValid(iter, segments) && Position(iter, segments) + |data| <= |Bytes()|
      modifies this`segments
      ensures Valid()
      ensures var at := Position(iter, old(segments));
              at + |data| <= |old(Bytes())| && Bytes() == old(Bytes())[..at] + data + old(Bytes())[at + |data|..]
      ensures |segments| == |old(segments)|
      ensures forall i :: 0 <= i < |segments| ==> |segments[i]| == |old(segments)[i]|
      ensures IterValid(iter', segments) && Position(iter', segments) == Position(iter, old(segments)) + |data|
    {
      hide Flatten, Overwrite;
      NothingOverwritten(Bytes(), Position(iter, segments));
      iter' := iter;
      var left := data;
      ghost var at := Position(iter, segments);
      ghost var written: seq<byte> := [];
      while |left| > 0
        invariant Valid() && IterValid(iter', segments)
        invariant |segments| == |old(segments)|
        invariant forall i :: 0 <= i < |segments| ==> |segments[i]| == |old(segments)[i]|
        invariant written + left == data
        invariant Position(iter', segments) == at + |written|
        invariant Bytes() == Overwrite(old(Bytes()), at, written)
        decreases |left|
      {
        RemainingIff(iter', segments);
        OverwriteLength(old(Bytes()), at, written);
        var nbytes := Min(RemainingInSegment(iter', segments), |left|);
        var i, s := iter'.segment, segments[iter'.segment];
        SegmentUpdate(segments, iter', left[..nbytes]);
        OverwriteTwice(old(Bytes()), at, written, left[..nbytes]);
        UpdateKeepsPositions(segments, iter', left[..nbytes]);
        segments := segments[i := s[..iter'.offset] + left[..nbytes] + s[iter'.offset + nbytes..]];
        written, left := written + left[..nbytes], left[nbytes..];
        iter' := Advance(iter', segments, nbytes);
      }
      assert written == data;
      OverwriteIs(old(Bytes()), at, data);
    }

    /**
     Hands the data to a function, one segment at a time, until it refuses one. The chunks
     accepted and refused are recorded in `chunks`.
     */
    method ForEachDataChunk(function_: seq<seq<byte>> -> bool) returns (ok: bool, chunks: seq<seq<byte>>)
      requires Valid()
      ensures chunks <= segments
      ensures forall i :: 0 < i < |chunks| ==> function_(chunks[..i])
      ensures if ok then chunks == segments && Flatten(chunks) == Bytes() && (chunks != [] ==> function_(chunks))
              else chunks != [] && !function_(chunks)
    {
      chunks := [];
      var iter := Iterator(0, 0);
      while !Done(iter, segments)
        invariant IterValid(iter, segments) && |chunks| <= |segments| && chunks == segments[..|chunks|]
        invariant if Done(iter, segments) then chunks == segments else iter == Iterator(|chunks|, 0)
        invariant forall i :: 0 < i <= |chunks| ==> function_(chunks[..i])
        decreases |segments| - |chunks|
      {
        ghost var before := chunks;
        chunks := chunks + [segments[iter.segment][iter.offset..]];
        assert chunks == segments[..|chunks|];
        assert forall i :: 0 < i <= |before| ==> chunks[..i] == before[..i];
        if !function_(chunks) {
          return false, chunks;
        }
        assert chunks[..|chunks|] == chunks;
        iter := Advance(iter, segments, RemainingInSegment(iter, segments));
      }
      assert chunks[..|chunks|] == chunks;
      return true, chunks;
    }

    /** Appends the whole contents of another buffer, chunk by chunk. */
    method Append(other: CloneData)
      requires Valid() && other.Valid() && other != this
      modifies this
      ensures Valid() && Bytes() == old(Bytes()) + other.Bytes()
    {
      var iter := Iterator(0, 0);
      ghost var n := 0;
      while !Done(iter, other.segments)
        invariant Valid() && IterValid(iter, other.segments) && n <= |other.segments|
        invariant if Done(iter, other.segments) then n == |other.segments| else iter == Iterator(n, 0)
        invariant Bytes() == old(Bytes()) + Flatten(other.segments[..n])
        decreases |other.segments| - n
      {
        FlattenAround(other.segments, n);
        AppendBytes(other.segments[iter.segment][iter.offset..]);
        iter := Advance(iter, other.segments, RemainingInSegment(iter, other.segments));
        n := n + 1;
      }
      assert other.segments[..n] == other.segments;
    }
  }
}
