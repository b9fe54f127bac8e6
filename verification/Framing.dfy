/** The message format of the file transfer and the segmentation of one file.

      | ......EF | name | 0 | payload      first segment of a file
      | ......EF | payload                 every later segment

    F marks the first segment; E is set when the read that filled the segment came up short. */
module Framing {
  import opened Prelude

  /** A readable file: its bytes, and whether an I/O error (rather than end of file) stops
      the reader after them. */
  datatype Source = Source(data: Bytes, faulty: bool)

  function Flags(eof: bool, first: bool): Byte {
    (if eof then 2 else 0) + (if first then 1 else 0)
  }

  predicate IsFirst(flags: Byte) { flags % 2 == 1 }

  predicate IsEof(flags: Byte) { flags / 2 % 2 == 1 }

  /** What the first segment carries between its flags and its payload. */
  function NameHeader(name: Bytes): Bytes {
    CStr(name) + [0]
  }

  /** How many of the file's next bytes go into the message that carries `hdr`. */
  function Taken(hdr: Bytes, src: Source, size: nat): nat
    requires |hdr| + 1 < size
  {
    Min(size - 1 - |hdr|, |src.data|)
  }

  function NextMessage(hdr: Bytes, src: Source, size: nat): Bytes
    requires |hdr| + 1 < size
  {
    var n := Taken(hdr, src, size);
    [Flags(n < size - 1 - |hdr| && !src.faulty, hdr != [])] + hdr + src.data[..n]
  }

  function Rest(hdr: Bytes, src: Source, size: nat): Source
    requires |hdr| + 1 < size
  {
    src.(data := src.data[Taken(hdr, src, size)..])
  }

  /** The messages for `src` when the next one carries `hdr` and no message exceeds `size` bytes. */
  function Segments(hdr: Bytes, src: Source, size: nat): (segs: seq<Bytes>)
    requires |hdr| + 1 < size
    decreases |src.data|
  {
    if src.data == [] then [] else [NextMessage(hdr, src, size)] + Segments([], Rest(hdr, src, size), size)
  }

  function FileSegments(name: Bytes, src: Source, size: nat): seq<Bytes>
    requires |CStr(name)| + 2 < size
  {
    Segments(NameHeader(name), src, size)
  }

  /** Where segment `i`'s payload starts in the file: the first takes what its header leaves, every
      later one all but the flags. */
  function PayloadOffset(hdr: Bytes, size: nat, i: nat): nat
    requires |hdr| + 1 < size
  {
    if i == 0 then 0
    else if i == 1 then size - 1 - |hdr|
    else PayloadOffset(hdr, size, i - 1) + size - 1
  }

  lemma {:induction false} OffsetShift(hdr: Bytes, size: nat, i: nat)
    requires |hdr| + 1 < size && i > 0
    ensures PayloadOffset(hdr, size, i) == (size - 1 - |hdr|) + PayloadOffset([], size, i - 1)
  {
    if i > 1 {
      OffsetShift(hdr, size, i - 1);
    }
  }

  /** Quotient rounded up. */
  function CeilDiv(n: nat, d: int): int
    requires d > 0
  {
    (n + d - 1) / d
  }

  lemma CeilDivStep(n: nat, d: int)
    requires d > 0 && n > 0
    ensures CeilDiv(n, d) == 1 + CeilDiv(if n < d then 0 else n - d, d)
  {
    var m := if n < d then 0 else n - d;
    if n < d {
      assert n + d - 1 == 1 * d + (n - 1);
      DivUnique(n + d - 1, d, 1, n - 1);
      DivUnique(d - 1, d, 0, d - 1);
    } else {
      var q, r := (m + d - 1) / d, (m + d - 1) % d;
      assert n + d - 1 == (q + 1) * d + r;
      DivUnique(n + d - 1, d, q + 1, r);
    }
  }

  /** How many messages a file takes: none when it is empty, otherwise the first one and as many
      further ones as the rest needs. */
  lemma {:induction false} SegmentCount(hdr: Bytes, src: Source, size: nat)
    requires |hdr| + 1 < size
    ensures |Segments(hdr, src, size)|
         == if src.data == [] then 0 else 1 + CeilDiv(Max(0, |src.data| - (size - 1 - |hdr|)), size - 1)
    decreases |src.data|
  {
    hide NextMessage;
    DivUnique(size - 2, size - 1, 0, size - 2);
    if src.data != [] {
      var rest := Rest(hdr, src, size);
      SegmentCount([], rest, size);
      if rest.data != [] {
        CeilDivStep(|rest.data|, size - 1);
      }
    }
  }

  /** Segment `i` written out without recursion: it exists exactly when its offset lies in the file,
      and it is the flags, the header if it is the first, and the file's bytes from its offset up
      to the next segment's offset or the end of the file. */
  ghost predicate IsSegmentAt(hdr: Bytes, src: Source, size: nat, i: nat, seg: Bytes)
    requires |hdr| + 1 < size
  {
    var head := if i == 0 then hdr else [];
    var from, next := PayloadOffset(hdr, size, i), PayloadOffset(hdr, size, i + 1);
    && from < |src.data|
    && from < next
    && seg == [Flags(!src.faulty && |src.data| < next, head != [])] + head
              + src.data[from..Min(next, |src.data|)]
  }

  lemma {:induction false} SegmentAt(hdr: Bytes, src: Source, size: nat, i: nat)
    requires |hdr| + 1 < size
    ensures i < |Segments(hdr, src, size)| <==> PayloadOffset(hdr, size, i) < |src.data|
    ensures i < |Segments(hdr, src, size)| ==> IsSegmentAt(hdr, src, size, i, Segments(hdr, src, size)[i])
    decreases |src.data|
  {
    hide NextMessage, IsSegmentAt;
    if src.data == [] {
    } else if i == 0 {
      FirstSegmentAt(hdr, src, size);
    } else {
      OffsetShift(hdr, size, i);
      var rest := Rest(hdr, src, size);
      SegmentAt([], rest, size, i - 1);
      if i < |Segments(hdr, src, size)| {
        SegmentAtStep(hdr, src, size, i, Segments([], rest, size)[i - 1]);
      }
    }
  }

  lemma FirstSegmentAt(hdr: Bytes, src: Source, size: nat)
    requires |hdr| + 1 < size && src.data != []
    ensures IsSegmentAt(hdr, src, size, 0, NextMessage(hdr, src, size))
  {
    var room := size - 1 - |hdr|;
    assert PayloadOffset(hdr, size, 1) == room;
    assert src.data[0..Min(room, |src.data|)] == src.data[..Taken(hdr, src, size)];
  }

  lemma SegmentAtStep(hdr: Bytes, src: Source, size: nat, i: nat, seg: Bytes)
    requires |hdr| + 1 < size && i > 0
    requires IsSegmentAt([], Rest(hdr, src, size), size, i - 1, seg)
    ensures IsSegmentAt(hdr, src, size, i, seg)
  {
    hide PayloadOffset, Flags;
    var room := size - 1 - |hdr|;
    OffsetShift(hdr, size, i);
    OffsetShift(hdr, size, i + 1);
    var tail := Rest(hdr, src, size).data;
    var from, next := PayloadOffset([], size, i - 1), PayloadOffset([], size, i);
    SliceOfSuffix(src.data, room, from, Min(next, |tail|));
  }

  lemma SliceOfSuffix(s: Bytes, skip: nat, from: nat, to: nat)
    requires from <= to && skip + to <= |s|
    ensures s[skip..][from..to] == s[skip + from..skip + to]
  {
  }

  /** Framing of a whole file. START is on exactly the first segment; every segment but the last is
      exactly full and carries no EOF; the last one carries EOF exactly when it is not full and the
      file ended without an error. */
  lemma SegmentFraming(hdr: Bytes, src: Source, size: nat, i: nat)
    requires |hdr| + 1 < size
    requires i < |Segments(hdr, src, size)|
    ensures var segs := Segments(hdr, src, size);
      && 1 < |segs[i]| <= size
      && (IsFirst(segs[i][0]) <==> i == 0 && hdr != [])
      && (i < |segs| - 1 ==> |segs[i]| == size)
      && (IsEof(segs[i][0]) <==> i == |segs| - 1 && |segs[i]| < size && !src.faulty)
      && segs[i][0] < 4
  {
    hide Segments;
    SegmentAt(hdr, src, size, i);
    SegmentAt(hdr, src, size, i + 1);
    var head := if i == 0 then hdr else [];
    var from, next := PayloadOffset(hdr, size, i), PayloadOffset(hdr, size, i + 1);
    assert next - from == size - 1 - |head|;
    assert |Segments(hdr, src, size)[i]| == 1 + |head| + Min(next, |src.data|) - from;
    FlagBits(!src.faulty && |src.data| < next, head != []);
  }

  /** The two lowest bits are the flags, and the receiver looks at no other; the sender leaves the others 0. */
  lemma FlagBits(eof: bool, first: bool)
    ensures Flags(eof, first) < 4
    ensures IsFirst(Flags(eof, first)) == first && IsEof(Flags(eof, first)) == eof
    ensures forall others: nat :: others < 64 ==>
      IsFirst(4 * others + Flags(eof, first)) == first && IsEof(4 * others + Flags(eof, first)) == eof
  {
  }

  /** A file whose last segment is exactly full is delivered without any EOF flag: this happens
      exactly when it fills its first segment and then a whole number of further ones. */
  lemma EofMissing(hdr: Bytes, src: Source, size: nat)
    requires |hdr| + 1 < size && !src.faulty && src.data != []
    ensures forall i :: 0 <= i < |Segments(hdr, src, size)| ==> 0 < |Segments(hdr, src, size)[i]|
    ensures (forall i :: 0 <= i < |Segments(hdr, src, size)| ==> !IsEof(Segments(hdr, src, size)[i][0]))
       <==> (|src.data| >= size - 1 - |hdr| && (|src.data| - (size - 1 - |hdr|)) % (size - 1) == 0)
  {
    var segs := Segments(hdr, src, size);
    forall i | 0 <= i < |segs|
      ensures 0 < |segs[i]| && (IsEof(segs[i][0]) <==> i == |segs| - 1 && |segs[i]| < size)
    {
      SegmentFraming(hdr, src, size, i);
    }
    LastSegmentFull(hdr, src, size);
    var last := segs[|segs| - 1];
    assert IsEof(last[0]) <==> |last| < size;
    SegmentFraming(hdr, src, size, |segs| - 1);
  }

  lemma {:induction false} LastSegmentFull(hdr: Bytes, src: Source, size: nat)
    requires |hdr| + 1 < size && src.data != []
    ensures var segs := Segments(hdr, src, size);
      (|segs[|segs| - 1]| == size)
      <==> (|src.data| >= size - 1 - |hdr| && (|src.data| - (size - 1 - |hdr|)) % (size - 1) == 0)
    decreases |src.data|
  {
    hide NextMessage;
    var rest := Rest(hdr, src, size);
    assert |NextMessage(hdr, src, size)| == 1 + |hdr| + Taken(hdr, src, size) by { MessageLength(hdr, src, size); }
    if rest.data != [] {
      LastSegmentFull([], rest, size);
      var more := Segments([], rest, size);
      assert Segments(hdr, src, size)[|more|] == more[|more| - 1];
      SmallMod(|rest.data|, size - 1);
    } else if |src.data| == size - 1 - |hdr| {
      DivUnique(0, size - 1, 0, 0);
    }
  }

  lemma MessageLength(hdr: Bytes, src: Source, size: nat)
    requires |hdr| + 1 < size
    ensures |NextMessage(hdr, src, size)| == 1 + |hdr| + Taken(hdr, src, size)
  {
  }

  lemma SmallMod(n: nat, d: int)
    requires 0 < d && 0 < n
    ensures n < d ==> n % d != 0
    ensures n >= d ==> n % d == (n - d) % d
  {
    if n < d {
      DivUnique(n, d, 0, n);
    } else {
      var q, r := (n - d) / d, (n - d) % d;
      assert n == (q + 1) * d + r;
      DivUnique(n, d, q + 1, r);
    }
  }
}
