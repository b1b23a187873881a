/** The Git index decoder of lsgit (`parse_git_index`): it reads the 12-byte
    header of a version-2 index (the signature "DIRC", a u32 version and a
    u32 entry count), then for each declared entry a 62-byte fixed part
    (ten u32 stat fields, a 20-byte object name and a u16 of flags), the
    path up to a NUL byte, and the padding that aligns the entry to a
    multiple of 8 bytes. It returns the paths in on-disk order.

    `Parse` is the specification: a function of the file's bytes and the
    position the decoder starts at. `ParseIndex` is the decoder itself, a
    method that reads a `Stream` step by step as the source does, and is
    proved to compute `Parse`. */
module GitIndex {
  import opened BigEndian
  import opened ByteStream
  import opened Slices

  datatype Option<+T> = None | Some(value: T)

  /** The signature of an index file, "DIRC" in ASCII. */
  const Signature: seq<Byte> := [0x44, 0x49, 0x52, 0x43]
  /** Bytes in the header: signature, version, entry count. */
  const HeaderSize: nat := 12
  /** Bytes in the fixed part of an entry: 10 * 4 + 20 + 2. */
  const FixedEntrySize: nat := 62
  /** Number of u32 fields at the start of an entry. */
  const StatWords: nat := 10
  /** Bytes in an object name (a SHA-1 digest). */
  const ObjectNameSize: nat := 20

  /** Why a decode stops without a list of paths. */
  datatype Error =
    | ShortHeader      // fewer than 12 bytes: the header unpack raises
    | BadSignature     // the first four bytes are not "DIRC"
    | IncompleteEntry  // fewer than 62 bytes left where an entry starts
    | NoTerminator     // the data ends inside a path (see ParseIndex)

  datatype Outcome = Ok(names: seq<seq<Byte>>) | Fail(error: Error)

  /** What a decode returns together with the read position it leaves. */
  datatype Scan = Scan(outcome: Outcome, end: nat)

  // ---------------------------------------------------------------------
  // The header: struct.unpack('!4sII', header)

  datatype RawHeader = RawHeader(signature: seq<Byte>, version: nat, count: nat)

  ghost predicate ValidHeader(h: RawHeader)
  {
    |h.signature| == 4 && h.version < 0x1_0000_0000 && h.count < 0x1_0000_0000
  }

  /** The 12 bytes that hold `h`. */
  function PackHeader(h: RawHeader): (b: seq<Byte>)
    requires ValidHeader(h)
    ensures |b| == HeaderSize
  {
    h.signature + Encode(h.version, 4) + Encode(h.count, 4)
  }

  /** Unpacks the header; like `struct.unpack`, it fails unless it is given
      exactly 12 bytes. */
  function UnpackHeader(b: seq<Byte>): (r: Option<RawHeader>)
    ensures r.Some? <==> |b| == HeaderSize
    ensures r.Some? ==> ValidHeader(r.value)
  {
    if |b| != HeaderSize then None
    else Some(RawHeader(b[..4], U32(b[4..8]), U32(b[8..12])))
  }

  /** What `UnpackHeader` returns is the one header that packs to `b`. */
  lemma PackUnpackHeader(b: seq<Byte>)
    requires |b| == HeaderSize
    ensures PackHeader(UnpackHeader(b).value) == b
  {
    EncodeDecode(b[4..8]);
    EncodeDecode(b[8..12]);
    SplitThree(b, 4, 8);
  }

  /** Unpacking a packed header gives it back. */
  lemma UnpackPackHeader(h: RawHeader)
    requires ValidHeader(h)
    ensures UnpackHeader(PackHeader(h)) == Some(h)
  {
    var b := PackHeader(h);
    assert b[..4] == h.signature;
    assert b[4..8] == Encode(h.version, 4);
    assert b[8..12] == Encode(h.count, 4);
    DecodeEncode(h.version, 4);
    DecodeEncode(h.count, 4);
  }

  // ---------------------------------------------------------------------
  // The fixed part of an entry: struct.unpack('!10I20sH', entry_header)

  datatype FixedPart = FixedPart(words: seq<nat>, objectName: seq<Byte>, flags: nat)

  /** Every word fits in 32 bits. */
  ghost predicate AllU32(ws: seq<nat>)
  {
    forall i :: 0 <= i < |ws| ==> ws[i] < 0x1_0000_0000
  }

  ghost predicate ValidFixed(f: FixedPart)
  {
    |f.words| == StatWords && AllU32(f.words) &&
    |f.objectName| == ObjectNameSize && f.flags < 0x1_0000
  }

  /** The u32 words `ws`, one after the other. */
  function PackWords(ws: seq<nat>): (b: seq<Byte>)
    requires AllU32(ws)
    ensures |b| == 4 * |ws|
  {
    if ws == [] then [] else Encode(ws[0], 4) + PackWords(ws[1..])
  }

  /** Reads `n` consecutive u32 words. */
  function UnpackWords(b: seq<Byte>, n: nat): (ws: seq<nat>)
    requires |b| == 4 * n
    ensures |ws| == n && AllU32(ws)
  {
    seq(n, i requires 0 <= i < n => U32(b[4 * i..4 * i + 4]))
  }

  /** Packing unpacked words gives the bytes back. */
  lemma {:induction false} PackUnpackWords(b: seq<Byte>, n: nat)
    requires |b| == 4 * n
    ensures PackWords(UnpackWords(b, n)) == b
    decreases n
  {
    if n > 0 {
      var ws := UnpackWords(b, n);
      UnpackWordsTail(b, n);
      assert Encode(ws[0], 4) == b[..4] by {
        EncodeDecode(b[..4]);
      }
      PackUnpackWords(b[4..], n - 1);
      assert PackWords(ws) == b[..4] + b[4..];
    }
  }

  /** The first word comes from the first four bytes, the others from the
      rest. */
  lemma UnpackWordsTail(b: seq<Byte>, n: nat)
    requires |b| == 4 * n && n > 0
    ensures UnpackWords(b, n)[0] == U32(b[..4])
    ensures UnpackWords(b, n)[1..] == UnpackWords(b[4..], n - 1)
  {
    var ws, tail := UnpackWords(b, n), UnpackWords(b[4..], n - 1);
    forall i | 0 <= i < n - 1
      ensures ws[1..][i] == tail[i]
    {
      SliceOfSlice(b, 4, |b|, 4 * i, 4 * i + 4);
      assert b[4..] == b[4..|b|];
      assert ws[1..][i] == ws[i + 1] == U32(b[4 * (i + 1)..4 * (i + 1) + 4]);
    }
  }

  /** Word `i` of packed words sits at bytes `4 * i` to `4 * i + 4`. */
  lemma {:induction false} PackWordsAt(ws: seq<nat>, i: nat)
    requires AllU32(ws) && i < |ws|
    ensures PackWords(ws)[4 * i..4 * i + 4] == Encode(ws[i], 4)
    decreases i
  {
    assert AllU32(ws[1..]);
    var head, tail := Encode(ws[0], 4), PackWords(ws[1..]);
    assert PackWords(ws) == head + tail;
    if i == 0 {
      SliceBefore(head, tail, 0, 4);
      assert head[0..4] == head;
    } else {
      var j := i - 1;
      PackWordsAt(ws[1..], j);
      assert ws[1..][j] == ws[i];
      SliceAfter(head, tail, 4 + 4 * j, 4 + 4 * j + 4);
    }
  }

  /** The 62 bytes that hold `f`. */
  function PackFixed(f: FixedPart): (b: seq<Byte>)
    requires ValidFixed(f)
    ensures |b| == FixedEntrySize
  {
    PackWords(f.words) + f.objectName + Encode(f.flags, 2)
  }

  /** Unpacks the fixed part of an entry; like `struct.unpack`, it fails
      unless it is given exactly 62 bytes. */
  function UnpackFixed(b: seq<Byte>): (r: Option<FixedPart>)
    ensures r.Some? <==> |b| == FixedEntrySize
  {
    if |b| != FixedEntrySize then None
    else Some(FixedPart(UnpackWords(b[..40], StatWords), b[40..60], U16(b[60..62])))
  }

  /** What `UnpackFixed` returns is the one fixed part that packs to `b`. */
  lemma PackUnpackFixed(b: seq<Byte>)
    requires |b| == FixedEntrySize
    ensures ValidFixed(UnpackFixed(b).value) && PackFixed(UnpackFixed(b).value) == b
  {
    var f := UnpackFixed(b).value;
    assert PackWords(f.words) == b[..40] by {
      PackUnpackWords(b[..40], StatWords);
    }
    assert Encode(f.flags, 2) == b[60..62] by {
      EncodeDecode(b[60..62]);
    }
    SplitThree(b, 40, 60);
  }

  /** Word `i` of packed words unpacks to itself. */
  lemma UnpackPackWordAt(ws: seq<nat>, i: nat)
    requires AllU32(ws) && i < |ws|
    ensures UnpackWords(PackWords(ws), |ws|)[i] == ws[i]
  {
    PackWordsAt(ws, i);
    DecodeEncode(ws[i], 4);
  }

  /** Unpacking packed words gives them back. */
  lemma UnpackPackWords(ws: seq<nat>)
    requires AllU32(ws)
    ensures UnpackWords(PackWords(ws), |ws|) == ws
  {
    var back := UnpackWords(PackWords(ws), |ws|);
    forall i | 0 <= i < |ws|
      ensures back[i] == ws[i]
    {
      UnpackPackWordAt(ws, i);
    }
  }

  /** Unpacking a packed fixed part gives it back. */
  lemma UnpackPackFixed(f: FixedPart)
    requires ValidFixed(f)
    ensures UnpackFixed(PackFixed(f)) == Some(f)
  {
    var b, words, flags := PackFixed(f), PackWords(f.words), Encode(f.flags, 2);
    assert b == (words + f.objectName) + flags;
    assert b[..40] == words by {
      SliceBefore(words + f.objectName, flags, 0, 40);
      SliceBefore(words, f.objectName, 0, 40);
      assert b[..40] == b[0..40] && words[0..40] == words;
    }
    assert b[40..60] == f.objectName by {
      SliceBefore(words + f.objectName, flags, 40, 60);
      SliceAfter(words, f.objectName, 40, 60);
      assert f.objectName[0..20] == f.objectName;
    }
    assert b[60..62] == flags by {
      SliceAfter(words + f.objectName, flags, 60, 62);
      assert flags[0..2] == flags;
    }
    UnpackPackWords(f.words);
    DecodeEncode(f.flags, 2);
  }

  // ---------------------------------------------------------------------
  // Alignment

  /** The padding after an entry whose fixed part, path and NUL take
      `unpadded` bytes: the bytes needed to reach a multiple of 8. */
  function Padding(unpadded: nat): (p: nat)
    ensures p < 8
    ensures (unpadded + p) % 8 == 0
  {
    (8 - unpadded % 8) % 8
  }

  /** No other amount below 8 aligns the entry: the padding is the least
      one, and 0 exactly when the entry is already aligned. */
  lemma PaddingIsUnique(unpadded: nat, q: nat)
    requires q < 8 && (unpadded + q) % 8 == 0
    ensures q == Padding(unpadded)
    ensures q == 0 <==> unpadded % 8 == 0
  {
    var p := Padding(unpadded);
    assert (q - p) % 8 == 0 by {
      assert q - p == (unpadded + q) - (unpadded + p);
    }
  }

  // ---------------------------------------------------------------------
  // Entries

  /** The position of the first NUL byte at or after `from`, if any. */
  function FirstNul(data: seq<Byte>, from: nat): (r: Option<nat>)
    requires from <= |data|
    ensures r.Some? ==> from <= r.value < |data|
    decreases |data| - from
  {
    if from == |data| then None
    else if data[from] == 0 then Some(from)
    else FirstNul(data, from + 1)
  }

  /** `FirstNul` finds a NUL with none before it, and finds none only
      where there is none. */
  lemma {:induction false} FirstNulMeaning(data: seq<Byte>, from: nat)
    requires from <= |data|
    ensures FirstNul(data, from).Some? ==>
      data[FirstNul(data, from).value] == 0 &&
      forall j :: from <= j < FirstNul(data, from).value ==> data[j] != 0
    ensures FirstNul(data, from).None? ==> forall j :: from <= j < |data| ==> data[j] != 0
    decreases |data| - from
  {
    if from < |data| && data[from] != 0 {
      FirstNulMeaning(data, from + 1);
    }
  }

  /** `name` starts at `nameStart`, holds no NUL, and is followed by one. */
  ghost predicate TerminatedPathAt(data: seq<Byte>, nameStart: nat, name: seq<Byte>)
  {
    nameStart + |name| < |data| &&
    data[nameStart..nameStart + |name|] == name &&
    (forall j :: nameStart <= j < nameStart + |name| ==> data[j] != 0) &&
    data[nameStart + |name|] == 0
  }

  /** One step of the entry loop. */
  datatype EntryStep =
    | Decoded(name: seq<Byte>, next: nat)
    | Incomplete
    | Unterminated

  /** Decodes the entry that starts at `pos`: the fixed part, the path up
      to the first NUL after it, and the padding, which may be cut short by
      the end of the data. */
  function ReadEntry(data: seq<Byte>, pos: nat): (r: EntryStep)
    requires pos <= |data|
    ensures r.Decoded? ==> pos < r.next <= |data|
  {
    if |data| - pos < FixedEntrySize then Incomplete
    else
      var nameStart := pos + FixedEntrySize;
      match FirstNul(data, nameStart)
      case None => Unterminated
      case Some(z) =>
        var name := data[nameStart..z];
        Decoded(name, Min(z + 1 + Padding(FixedEntrySize + |name| + 1), |data|))
  }

  /** What one step of the entry loop decodes: an entry is incomplete
      exactly when fewer than 62 bytes remain, unterminated exactly when no
      NUL follows its fixed part, and otherwise its path is every byte
      between the fixed part and the first NUL, which is consumed but not
      part of the path. The cursor then moves on by the whole aligned
      entry, `62 + |name| + 1 + padding` bytes, or to the end of the data
      when that comes first. */
  lemma ReadEntryMeaning(data: seq<Byte>, pos: nat)
    requires pos <= |data|
    ensures ReadEntry(data, pos).Incomplete? <==> |data| - pos < FixedEntrySize
    ensures ReadEntry(data, pos).Unterminated? <==>
      |data| - pos >= FixedEntrySize && 0 !in data[pos + FixedEntrySize..]
    ensures ReadEntry(data, pos).Decoded? ==>
      var r := ReadEntry(data, pos);
      var nameEnd := pos + FixedEntrySize + |r.name|;
      nameEnd < |data| && data[pos + FixedEntrySize..nameEnd] == r.name &&
      0 !in r.name && data[nameEnd] == 0 &&
      r.next == Min(nameEnd + 1 + Padding(FixedEntrySize + |r.name| + 1), |data|) &&
      pos < r.next
  {
    if |data| - pos >= FixedEntrySize {
      var nameStart := pos + FixedEntrySize;
      FirstNulMeaning(data, nameStart);
      var rest := data[nameStart..];
      assert forall j :: 0 <= j < |rest| ==> rest[j] == data[nameStart + j];
      match FirstNul(data, nameStart)
      case None =>
      case Some(z) =>
        var name := data[nameStart..z];
        assert forall j :: 0 <= j < |name| ==> name[j] == data[nameStart + j];
        assert rest[z - nameStart] == 0;
    }
  }

  /** The path of the entry at `entryStart` runs from the end of its fixed
      part to the first NUL, which is at `entryStart + 62 + nameLen`. */
  lemma NameTerminated(data: seq<Byte>, entryStart: nat, name: seq<Byte>)
    requires entryStart + FixedEntrySize <= |data|
    requires TerminatedPathAt(data, entryStart + FixedEntrySize, name)
    ensures ReadEntry(data, entryStart) ==
      Decoded(name, Min(entryStart + FixedEntrySize + |name| + 1 + Padding(FixedEntrySize + |name| + 1), |data|))
  {
    FirstNulMeaning(data, entryStart + FixedEntrySize);
    assert FirstNul(data, entryStart + FixedEntrySize) == Some(entryStart + FixedEntrySize + |name|);
  }

  /** An entry whose fixed part is followed by no NUL is unterminated. */
  lemma NameUnterminated(data: seq<Byte>, entryStart: nat)
    requires entryStart + FixedEntrySize <= |data|
    requires forall j :: entryStart + FixedEntrySize <= j < |data| ==> data[j] != 0
    ensures ReadEntry(data, entryStart) == Unterminated
  {
    FirstNulMeaning(data, entryStart + FixedEntrySize);
    var rest := data[entryStart + FixedEntrySize..];
    assert forall j :: 0 <= j < |rest| ==> rest[j] == data[entryStart + FixedEntrySize + j];
  }

  /** An entry that cannot be decoded ends the loop with its error. */
  lemma EntriesStopAt(data: seq<Byte>, pos: nat, k: nat)
    requires pos <= |data| && k > 0
    requires !ReadEntry(data, pos).Decoded?
    ensures Entries(data, pos, k) == Scan(Fail(
      if ReadEntry(data, pos).Incomplete? then IncompleteEntry else NoTerminator), |data|)
  {
  }

  /** A decoded entry puts its path in front of those of the entries after it. */
  lemma EntriesDecoded(data: seq<Byte>, pos: nat, k: nat, name: seq<Byte>, next: nat, more: nat)
    requires pos <= |data| && k == more + 1
    requires ReadEntry(data, pos) == Decoded(name, next)
    ensures next <= |data|
    ensures Entries(data, pos, k) == Prepend([name], Entries(data, next, more))
  {
    ReadEntryMeaning(data, pos);
  }

  /** `names` in front of the paths of `s`, when `s` has any. */
  function Prepend(names: seq<seq<Byte>>, s: Scan): (r: Scan)
    ensures r.end == s.end
    ensures r.outcome.Ok? == s.outcome.Ok?
    ensures r.outcome.Ok? ==> r.outcome.names == names + s.outcome.names
    ensures r.outcome.Fail? ==> r == s
  {
    match s.outcome
    case Ok(rest) => Scan(Ok(names + rest), s.end)
    case Fail(_) => s
  }

  lemma PrependPrepend(a: seq<seq<Byte>>, b: seq<seq<Byte>>, s: Scan)
    ensures Prepend(a, Prepend(b, s)) == Prepend(a + b, s)
  {
    if s.outcome.Ok? {
      assert a + (b + s.outcome.names) == (a + b) + s.outcome.names;
    }
  }

  /** The entry loop: decodes `k` entries starting at `pos`. A failing
      entry fails the whole loop, so there is never a partial list. */
  function Entries(data: seq<Byte>, pos: nat, k: nat): (r: Scan)
    requires pos <= |data|
    ensures pos <= r.end <= |data|
    ensures r.outcome.Ok? ==> |r.outcome.names| == k
    ensures r.outcome.Ok? ==> forall n <- r.outcome.names :: 0 !in n
    ensures r.outcome.Fail? ==>
      r.end == |data| && r.outcome.error in {IncompleteEntry, NoTerminator}
    decreases k
  {
    if k == 0 then Scan(Ok([]), pos)
    else
      match ReadEntry(data, pos)
      case Incomplete => Scan(Fail(IncompleteEntry), |data|)
      case Unterminated => Scan(Fail(NoTerminator), |data|)
      case Decoded(name, next) =>
        ReadEntryMeaning(data, pos);
        Prepend([name], Entries(data, next, k - 1))
  }

  /** The entries from `pos` on decode one after another to `names`, the
      last of them ending at `end`. */
  ghost predicate DecodesTo(data: seq<Byte>, pos: nat, names: seq<seq<Byte>>, end: nat)
    requires pos <= |data|
    decreases names
  {
    if names == [] then pos == end
    else
      var r := ReadEntry(data, pos);
      r.Decoded? && r.name == names[0] && DecodesTo(data, r.next, names[1..], end)
  }

  /** An entry that decodes at `pos`, followed by entries that decode from
      where it ends, decode together. */
  lemma DecodesToStep(data: seq<Byte>, pos: nat, name: seq<Byte>, next: nat,
                      rest: seq<seq<Byte>>, end: nat)
    requires pos <= next <= |data| && ReadEntry(data, pos) == Decoded(name, next)
    requires DecodesTo(data, next, rest, end)
    ensures DecodesTo(data, pos, [name] + rest, end)
  {
    assert ([name] + rest)[1..] == rest;
  }

  /** Asked for as many entries as decode from `pos`, the entry loop
      returns their paths and stops where the last of them ends. */
  lemma {:induction false} EntriesOfDecoded(data: seq<Byte>, pos: nat, names: seq<seq<Byte>>, end: nat)
    requires pos <= |data| && DecodesTo(data, pos, names, end)
    ensures Entries(data, pos, |names|) == Scan(Ok(names), end)
    decreases names
  {
    if names != [] {
      var r := ReadEntry(data, pos);
      EntriesDecoded(data, pos, |names|, r.name, r.next, |names[1..]|);
      EntriesOfDecoded(data, r.next, names[1..], end);
      assert [names[0]] + names[1..] == names;
    }
  }

  /** Conversely, the paths of a successful entry loop are those of entries
      that decode one after another from `pos`, the last ending where the
      loop stops. */
  lemma {:induction false} EntriesOkDecodes(data: seq<Byte>, pos: nat, k: nat)
    requires pos <= |data| && Entries(data, pos, k).outcome.Ok?
    ensures DecodesTo(data, pos, Entries(data, pos, k).outcome.names, Entries(data, pos, k).end)
    decreases k
  {
    if k > 0 {
      var r := ReadEntry(data, pos);
      if !r.Decoded? {
        assert false;
      } else {
        EntriesDecoded(data, pos, k, r.name, r.next, k - 1);
        EntriesOkDecodes(data, r.next, k - 1);
        var rest := Entries(data, r.next, k - 1);
        DecodesToStep(data, pos, r.name, r.next, rest.outcome.names, rest.end);
      }
    }
  }

  /** Asked for more entries than decode from `pos`, where fewer than 62
      bytes follow the last of them, the entry loop fails with
      `IncompleteEntry`: the paths decoded before are lost. */
  lemma {:induction false} EntriesPastDecoded(data: seq<Byte>, pos: nat, names: seq<seq<Byte>>, end: nat, k: nat)
    requires pos <= |data| && DecodesTo(data, pos, names, end)
    requires |names| < k && |data| - end < FixedEntrySize
    ensures Entries(data, pos, k) == Scan(Fail(IncompleteEntry), |data|)
    decreases names
  {
    if names == [] {
      EntriesStopAt(data, pos, k);
    } else {
      var r := ReadEntry(data, pos);
      EntriesDecoded(data, pos, k, r.name, r.next, k - 1);
      EntriesPastDecoded(data, r.next, names[1..], end, k - 1);
    }
  }

  /** The whole decode of the data from position `start` on. */
  function Parse(data: seq<Byte>, start: nat): (r: Scan)
    requires start <= |data|
    ensures start <= r.end <= |data|
  {
    var headerEnd := Min(start + HeaderSize, |data|);
    var header := data[start..headerEnd];
    match UnpackHeader(header)
    case None => Scan(Fail(ShortHeader), headerEnd)
    case Some(h) =>
      if h.signature != Signature then Scan(Fail(BadSignature), headerEnd)
      else Entries(data, headerEnd, h.count)
  }

  /** A decode fails with `ShortHeader` exactly when fewer than 12 bytes
      are left, and with `BadSignature` exactly when the first four are not
      "DIRC"; a successful one returns as many paths as the header declares,
      none of them holding a NUL. */
  lemma ParseMeaning(data: seq<Byte>, start: nat)
    requires start <= |data|
    ensures var r := Parse(data, start);
      (r.outcome == Fail(ShortHeader) <==> |data| - start < HeaderSize) &&
      (r.outcome == Fail(ShortHeader) ==> r.end == |data|) &&
      (r.outcome == Fail(BadSignature) <==>
        |data| - start >= HeaderSize && data[start..start + 4] != Signature) &&
      (r.outcome == Fail(BadSignature) ==> r.end == start + HeaderSize) &&
      (r.outcome.Ok? ==>
        |data| - start >= HeaderSize && data[start..start + 4] == Signature &&
        |r.outcome.names| == U32(data[start + 8..start + 12]) &&
        forall n <- r.outcome.names :: 0 !in n)
  {
    if |data| - start >= HeaderSize {
      var header := data[start..start + HeaderSize];
      assert header[..4] == data[start..start + 4];
      assert header[8..12] == data[start + 8..start + 12];
    }
  }

  /** A successful decode returns exactly the paths of the entries that
      decode one after another from the end of the header, and stops where
      the last of them ends. With `RoundTrip` this makes the entries of a
      well-formed index and the result of a successful decode the same. */
  lemma ParseOkDecodes(data: seq<Byte>, start: nat)
    requires start <= |data| && Parse(data, start).outcome.Ok?
    ensures start + HeaderSize <= |data|
    ensures DecodesTo(data, start + HeaderSize, Parse(data, start).outcome.names, Parse(data, start).end)
  {
    ParseMeaning(data, start);
    var h := UnpackHeader(data[start..start + HeaderSize]).value;
    assert Parse(data, start) == Entries(data, start + HeaderSize, h.count);
    EntriesOkDecodes(data, start + HeaderSize, h.count);
  }

  // ---------------------------------------------------------------------
  // The decoder

  /** Reads the path of an entry one byte at a time, up to and including
      the NUL that ends it, and returns the bytes before the NUL. When the
      data ends first, `terminated` is false and the stream is at its end:
      there `read(1)` in the source returns an empty string on every call
      and appends nothing, so its loop runs forever. */
  method ReadPath(f: Stream) returns (name: seq<Byte>, terminated: bool)
    requires f.Valid()
    modifies f`pos
    ensures f.Valid()
    ensures terminated ==>
      TerminatedPathAt(f.data, old(f.pos), name) && f.pos == old(f.pos) + |name| + 1
    ensures !terminated ==>
      f.pos == |f.data| && forall j :: old(f.pos) <= j < |f.data| ==> f.data[j] != 0
  {
    ghost var start := f.pos;
    name := [];
    while true
      invariant f.Valid() && f.pos == start + |name|
      invariant name == f.data[start..f.pos]
      invariant forall j :: start <= j < f.pos ==> f.data[j] != 0
      decreases |f.data| - f.pos
    {
      ghost var at := f.pos;
      var b := f.Read(1);
      if b == [0] {
        return name, true;
      }
      if b == [] {
        return name, false;
      }
      assert b == [f.data[at]] && f.pos == at + 1;
      name := name + b;
    }
  }

  /** Reads one entry as the body of the entry loop does: 62 bytes of
      fixed part, the path up to its NUL, then the padding, whose read may
      come back short at the end of the data. The outcome is `ReadEntry`
      of the position the entry starts at; the stream is left where the
      next entry starts, or at its end when the entry cannot be decoded. */
  method ReadIndexEntry(f: Stream) returns (step: EntryStep)
    requires f.Valid()
    modifies f`pos
    ensures f.Valid()
    ensures step == ReadEntry(f.data, old(f.pos))
    ensures f.pos == if step.Decoded? then step.next else |f.data|
  {
    ghost var entryStart := f.pos;
    var entryHeader := f.Read(FixedEntrySize);
    if |entryHeader| < FixedEntrySize {
      assert |f.data| - entryStart < FixedEntrySize;
      return Incomplete;
    }
    var fixed := UnpackFixed(entryHeader);
    if fixed.None? {
      // the `except struct.error` branch: the unpack is only ever given
      // exactly 62 bytes, so it cannot fail
      assert false;
    }

    assert f.pos == entryStart + FixedEntrySize;
    var nameBytes, terminated := ReadPath(f);
    if !terminated {
      NameUnterminated(f.data, entryStart);
      return Unterminated;
    }

    NameTerminated(f.data, entryStart, nameBytes);
    ghost var afterName := f.pos;
    var padding := Padding(|entryHeader| + |nameBytes| + 1);
    var skipped := f.Read(padding);
    assert f.pos == Min(afterName + padding, |f.data|);
    step := Decoded(nameBytes, f.pos);
  }

  /** The entry loop of `parse_git_index`: reads `count` entries, the
      outcome and final read position being those of `Entries`. */
  method ReadEntries(f: Stream, count: nat) returns (outcome: Outcome)
    requires f.Valid()
    modifies f`pos
    ensures f.Valid()
    ensures Entries(f.data, old(f.pos), count) == Scan(outcome, f.pos)
  {
    var filenames: seq<seq<Byte>> := [];
    ghost var entriesStart := f.pos;
    assert Prepend([], Entries(f.data, f.pos, count)) == Entries(f.data, f.pos, count);
    var i: nat := 0;
    while i < count
      invariant f.Valid() && i <= count
      invariant Entries(f.data, entriesStart, count)
             == Prepend(filenames, Entries(f.data, f.pos, count - i))
    {
      ghost var entryStart := f.pos;
      var step := ReadIndexEntry(f);
      match step
      case Incomplete =>
        EntriesStopAt(f.data, entryStart, count - i);
        return Fail(IncompleteEntry);
      case Unterminated =>
        // the source's `while True` loop never ends here (see ReadPath)
        EntriesStopAt(f.data, entryStart, count - i);
        return Fail(NoTerminator);
      case Decoded(name, _) =>
        PrependPrepend(filenames, [name], Entries(f.data, f.pos, count - i - 1));
        filenames := filenames + [name];
        i := i + 1;
    }
    return Ok(filenames);
  }

  /** Decodes the index from the stream's read position on, reading it as
      `parse_git_index` does: 12 bytes of header, then per entry 62 bytes,
      the path one byte at a time up to the NUL, and the padding. The
      result and the final read position are those `Parse` gives.

      Where the data ends inside a path the source loops forever (see
      `ReadPath`); this decoder stops there with `Fail(NoTerminator)`. */
  method ParseIndex(f: Stream) returns (outcome: Outcome)
    requires f.Valid()
    modifies f`pos
    ensures f.Valid()
    ensures Parse(f.data, old(f.pos)) == Scan(outcome, f.pos)
  {
    var header := f.Read(HeaderSize);
    var unpacked := UnpackHeader(header);
    if unpacked.None? {
      return Fail(ShortHeader);
    }
    var h := unpacked.value;
    if h.signature != Signature {
      return Fail(BadSignature);
    }

    assert Parse(f.data, old(f.pos)) == Entries(f.data, f.pos, h.count);
    outcome := ReadEntries(f, h.count);
  }
}
