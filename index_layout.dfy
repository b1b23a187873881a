/** The on-disk layout that the decoder reads, written the other way round:
    an encoder from a list of entries to the bytes of a version-2 index,
    and the lemmas that tie `GitIndex.Parse` to it. The encoder writes the
    layout of Git's index format (header, then per entry the fixed part,
    the path, a NUL and zero padding to a multiple of 8 bytes). */
module IndexLayout {
  import opened BigEndian
  import opened ByteStream
  import opened GitIndex
  import opened Slices

  /** An index entry: the 62 bytes of its fixed part (which the decoder
      skips whatever they hold) and its path. */
  datatype Entry = Entry(fixed: seq<Byte>, name: seq<Byte>)

  /** A path stored in the index cannot hold a NUL: it ends at the first. */
  ghost predicate ValidEntry(e: Entry)
  {
    |e.fixed| == FixedEntrySize && 0 !in e.name
  }

  ghost predicate ValidEntries(es: seq<Entry>)
  {
    forall i :: 0 <= i < |es| ==> ValidEntry(es[i])
  }

  function Zeros(n: nat): (z: seq<Byte>)
    ensures |z| == n && forall i :: 0 <= i < n ==> z[i] == 0
  {
    seq(n, _ => 0)
  }

  /** One entry on disk. Its length is a multiple of 8. */
  function EncodeEntry(e: Entry): (b: seq<Byte>)
    requires ValidEntry(e)
    ensures |b| == FixedEntrySize + |e.name| + 1 + Padding(FixedEntrySize + |e.name| + 1)
    ensures |b| % 8 == 0
  {
    e.fixed + e.name + [0] + Zeros(Padding(FixedEntrySize + |e.name| + 1))
  }

  /** The entries one after the other. */
  function EncodeEntries(es: seq<Entry>): (b: seq<Byte>)
    requires ValidEntries(es)
  {
    if es == [] then []
    else
      assert ValidEntry(es[0]) && ValidEntries(es[1..]);
      EncodeEntry(es[0]) + EncodeEntries(es[1..])
  }

  /** The paths of the entries, in order. */
  function Names(es: seq<Entry>): (names: seq<seq<Byte>>)
    ensures |names| == |es| && forall i :: 0 <= i < |es| ==> names[i] == es[i].name
  {
    seq(|es|, i requires 0 <= i < |es| => es[i].name)
  }

  /** An index file: a header declaring `count` entries, then `es`. */
  function EncodeIndex(version: nat, count: nat, es: seq<Entry>): (b: seq<Byte>)
    requires version < 0x1_0000_0000 && count < 0x1_0000_0000 && ValidEntries(es)
    ensures |b| == HeaderSize + |EncodeEntries(es)|
  {
    PackHeader(RawHeader(Signature, version, count)) + EncodeEntries(es)
  }

  /** The entry loop reads back an encoded entry, and moves past all of it,
      padding included. */
  lemma ReadEncodedEntry(data: seq<Byte>, pos: nat, e: Entry)
    requires ValidEntry(e)
    requires pos + |EncodeEntry(e)| <= |data|
    requires data[pos..pos + |EncodeEntry(e)|] == EncodeEntry(e)
    ensures ReadEntry(data, pos) == Decoded(e.name, pos + |EncodeEntry(e)|)
  {
    var enc, n := EncodeEntry(e), |e.name|;
    var nameStart := pos + FixedEntrySize;
    assert data[nameStart..nameStart + n] == e.name by {
      var named := e.fixed + e.name;
      assert enc == (named + [0]) + Zeros(Padding(FixedEntrySize + n + 1));
      SliceBefore(named + [0], Zeros(Padding(FixedEntrySize + n + 1)), FixedEntrySize, FixedEntrySize + n);
      SliceBefore(named, [0], FixedEntrySize, FixedEntrySize + n);
      SliceAfter(e.fixed, e.name, FixedEntrySize, FixedEntrySize + n);
      assert e.name[0..n] == e.name;
      SliceOfSlice(data, pos, pos + |enc|, FixedEntrySize, FixedEntrySize + n);
    }
    assert data[nameStart + n] == 0 by {
      assert data[nameStart + n] == enc[FixedEntrySize + n];
    }
    forall j | nameStart <= j < nameStart + n
      ensures data[j] != 0
    {
      assert data[j] == e.name[j - nameStart];
    }
    NameTerminated(data, pos, e.name);
  }

  /** `es` are stored one after another from `pos` on, the last one ending
      at `end`. */
  ghost predicate LaidOut(data: seq<Byte>, pos: nat, es: seq<Entry>, end: nat)
    requires ValidEntries(es)
    decreases es
  {
    if es == [] then pos == end <= |data|
    else
      assert ValidEntry(es[0]) && ValidEntries(es[1..]);
      var next := pos + |EncodeEntry(es[0])|;
      next <= |data| && data[pos..next] == EncodeEntry(es[0]) &&
      LaidOut(data, next, es[1..], end)
  }

  /** Encoded entries at `pos` are laid out up to the end of their encoding. */
  lemma {:induction false} EncodedIsLaidOut(data: seq<Byte>, pos: nat, es: seq<Entry>, end: nat)
    requires ValidEntries(es) && end == pos + |EncodeEntries(es)| <= |data|
    requires data[pos..end] == EncodeEntries(es)
    ensures LaidOut(data, pos, es, end)
    decreases es
  {
    if es != [] {
      assert ValidEntry(es[0]) && ValidEntries(es[1..]);
      var enc, encRest := EncodeEntry(es[0]), EncodeEntries(es[1..]);
      assert EncodeEntries(es) == enc + encRest;
      SliceOfSlice(data, pos, end, 0, |enc|);
      SliceBefore(enc, encRest, 0, |enc|);
      SliceOfSlice(data, pos, end, |enc|, |enc| + |encRest|);
      SliceAfter(enc, encRest, |enc|, |enc| + |encRest|);
      EncodedIsLaidOut(data, pos + |enc|, es[1..], end);
    }
  }

  /** Entries laid out one after another decode, one after another, to
      their paths. */
  lemma {:induction false} LaidOutDecodes(data: seq<Byte>, pos: nat, es: seq<Entry>, end: nat)
    requires ValidEntries(es) && LaidOut(data, pos, es, end)
    ensures pos <= |data| && DecodesTo(data, pos, Names(es), end)
    decreases es
  {
    if es != [] {
      var e, rest := es[0], es[1..];
      assert ValidEntry(e) && ValidEntries(rest);
      var next := pos + |EncodeEntry(e)|;
      assert next <= |data| && data[pos..next] == EncodeEntry(e) && LaidOut(data, next, rest, end);
      ReadEncodedEntry(data, pos, e);
      LaidOutDecodes(data, next, rest, end);
      DecodesToStep(data, pos, e.name, next, Names(rest), end);
      assert Names(es) == [e.name] + Names(rest);
    }
  }

  /** In an encoded index, the header declares `count` entries and the
      entries are laid out right after it. */
  lemma EncodedIndexLayout(version: nat, count: nat, es: seq<Entry>, trailer: seq<Byte>)
    requires version < 0x1_0000_0000 && count < 0x1_0000_0000 && ValidEntries(es)
    ensures var data := EncodeIndex(version, count, es) + trailer;
      |data| == HeaderSize + |EncodeEntries(es)| + |trailer| &&
      Parse(data, 0) == Entries(data, HeaderSize, count) &&
      DecodesTo(data, HeaderSize, Names(es), HeaderSize + |EncodeEntries(es)|)
  {
    var data := EncodeIndex(version, count, es) + trailer;
    var h := RawHeader(Signature, version, count);
    assert data[0..HeaderSize] == PackHeader(h) by {
      SliceBefore(EncodeIndex(version, count, es), trailer, 0, HeaderSize);
      SliceBefore(PackHeader(h), EncodeEntries(es), 0, HeaderSize);
    }
    UnpackPackHeader(h);
    assert data[HeaderSize..HeaderSize + |EncodeEntries(es)|] == EncodeEntries(es) by {
      SliceBefore(EncodeIndex(version, count, es), trailer, HeaderSize, HeaderSize + |EncodeEntries(es)|);
      SliceAfter(PackHeader(h), EncodeEntries(es), HeaderSize, HeaderSize + |EncodeEntries(es)|);
    }
    EncodedIsLaidOut(data, HeaderSize, es, HeaderSize + |EncodeEntries(es)|);
    LaidOutDecodes(data, HeaderSize, es, HeaderSize + |EncodeEntries(es)|);
  }

  /** Round trip: a well-formed index declaring as many entries as it holds
      decodes to their paths, in on-disk order, and the decoder stops right
      after the last entry, whatever follows (in a real index: extensions
      and the checksum). */
  lemma RoundTrip(version: nat, es: seq<Entry>, trailer: seq<Byte>)
    requires version < 0x1_0000_0000 && |es| < 0x1_0000_0000 && ValidEntries(es)
    ensures var index := EncodeIndex(version, |es|, es);
      Parse(index + trailer, 0) == Scan(Ok(Names(es)), |index|)
  {
    EncodedIndexLayout(version, |es|, es, trailer);
    EntriesOfDecoded(EncodeIndex(version, |es|, es) + trailer, HeaderSize, Names(es),
      HeaderSize + |EncodeEntries(es)|);
  }

  /** A header that declares more entries than the file holds makes the
      whole decode fail with `IncompleteEntry` once the entries run out:
      the paths decoded before are not returned. */
  lemma TruncatedIndexFails(version: nat, count: nat, es: seq<Entry>, trailer: seq<Byte>)
    requires version < 0x1_0000_0000 && count < 0x1_0000_0000 && ValidEntries(es)
    requires |es| < count && |trailer| < FixedEntrySize
    ensures var data := EncodeIndex(version, count, es) + trailer;
      Parse(data, 0) == Scan(Fail(IncompleteEntry), |data|)
  {
    EncodedIndexLayout(version, count, es, trailer);
    EntriesPastDecoded(EncodeIndex(version, count, es) + trailer, HeaderSize, Names(es),
      HeaderSize + |EncodeEntries(es)|, count);
  }

  /** A two-entry index holding "a.txt" (padded by 4 bytes) and
      "dir/b.txt" (already aligned, padded by 0): each entry takes 72
      bytes, and the index decodes to both paths whatever follows it. */
  lemma TwoEntryExample(fixed: seq<Byte>, trailer: seq<Byte>)
    requires |fixed| == FixedEntrySize
    ensures
      var a := [0x61, 0x2e, 0x74, 0x78, 0x74];
      var b := [0x64, 0x69, 0x72, 0x2f, 0x62, 0x2e, 0x74, 0x78, 0x74];
      var index := EncodeIndex(2, 2, [Entry(fixed, a), Entry(fixed, b)]);
      Padding(FixedEntrySize + |a| + 1) == 4 && Padding(FixedEntrySize + |b| + 1) == 0 &&
      |index| == HeaderSize + 72 + 72 &&
      Parse(index + trailer, 0) == Scan(Ok([a, b]), |index|)
  {
    var a: seq<Byte> := [0x61, 0x2e, 0x74, 0x78, 0x74];
    var b: seq<Byte> := [0x64, 0x69, 0x72, 0x2f, 0x62, 0x2e, 0x74, 0x78, 0x74];
    var es := [Entry(fixed, a), Entry(fixed, b)];
    assert ValidEntries(es);
    assert Padding(FixedEntrySize + |a| + 1) == 4 && Padding(FixedEntrySize + |b| + 1) == 0;
    assert |EncodeEntries(es)| == 144 by {
      assert |EncodeEntry(es[0])| == 72 && |EncodeEntry(es[1])| == 72;
      assert es[1..][1..] == [];
      assert EncodeEntries(es[1..]) == EncodeEntry(es[1]) + EncodeEntries([]);
    }
    RoundTrip(2, es, trailer);
    assert Names(es) == [a, b];
  }
}
