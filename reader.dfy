/** The container reader: validates the fixed header of an audiogroup file,
    decodes its offset table and infers every track's size from the gap to
    the next track. */
module Reader {
  import opened Wrappers
  import opened LittleEndian

  /** One track: where it starts (a Go `int64`) and how many bytes to read
      from there (a Go `uint32`; `MaxUint32` means "until end of file"). */
  datatype TrackInfo = TrackInfo(offset: int, size: int)

  /** The fixed prefix of the file, five little-endian fields in order:
      magic `FORM`, file size, magic `AUDO`, size, track count. */
  datatype RawHeader = RawHeader(header: seq<byte>, fileSize: int, subHeader: seq<byte>,
                                 size: int, tracks: int)

  /** Why construction fails. A stream that ends early (Go's `io.EOF` or
      `io.ErrUnexpectedEOF`) is `Truncated`; a wrong magic carries the four
      bytes found. */
  datatype Err = Truncated | InvalidHeader(got: seq<byte>) | InvalidSubHeader(got: seq<byte>)

  /** Bytes taken by `RawHeader`: five 4-byte fields. */
  const HeaderLen: nat := 20

  /** Added to every stored offset to get the absolute file offset. */
  const OffsetBias: int := 4

  const Form: seq<byte> := [0x46, 0x4F, 0x52, 0x4D]  // ASCII "FORM"
  const Audo: seq<byte> := [0x41, 0x55, 0x44, 0x4F]  // ASCII "AUDO"

  predicate WellFormedHeader(h: RawHeader) {
    |h.header| == 4 && |h.subHeader| == 4 &&
    IsUint32(h.fileSize) && IsUint32(h.size) && IsUint32(h.tracks)
  }

  /** What `binary.Read` makes of 20 bytes read into a `rawHeader`. */
  function DecodeHeader(b: seq<byte>): (h: RawHeader)
    requires |b| == HeaderLen
    ensures WellFormedHeader(h)
  {
    RawHeader(b[..4], LeU32(b, 4), b[8..12], LeU32(b, 12), LeU32(b, 16))
  }

  /** The 20 bytes of a header, as `binary.Write` would lay them out. */
  function EncodeHeader(h: RawHeader): (b: seq<byte>)
    requires WellFormedHeader(h)
    ensures |b| == HeaderLen
  {
    h.header + LeBytes(h.fileSize) + h.subHeader + LeBytes(h.size) + LeBytes(h.tracks)
  }

  lemma HeaderRoundTrip(h: RawHeader)
    requires WellFormedHeader(h)
    ensures DecodeHeader(EncodeHeader(h)) == h
  {
  }

  lemma HeaderBytesRoundTrip(b: seq<byte>)
    requires |b| == HeaderLen
    ensures EncodeHeader(DecodeHeader(b)) == b
  {
    LeBytesOfDecoded(b, 4);
    LeBytesOfDecoded(b, 12);
    LeBytesOfDecoded(b, 16);
    assert b == b[..4] + b[4..8] + b[8..12] + b[12..16] + b[16..20];
  }

  /** What `binary.Read` makes of `4 * n` bytes read into a `[]uint32` of
      length n. */
  function DecodeTable(b: seq<byte>, n: nat): (raw: seq<int>)
    requires 4 * n <= |b|
    ensures |raw| == n
    ensures forall i :: 0 <= i < n ==> IsUint32(raw[i])
    decreases n
  {
    if n == 0 then [] else [LeU32(b, 0)] + DecodeTable(b[4..], n - 1)
  }

  /** Entry i of the table is the little-endian word at byte 4 * i. */
  lemma {:induction false} DecodeTableAt(b: seq<byte>, n: nat, i: nat)
    requires 4 * n <= |b| && i < n
    ensures DecodeTable(b, n)[i] == LeU32(b, 4 * i)
  {
    if i > 0 {
      DecodeTableAt(b[4..], n - 1, i - 1);
    }
  }

  /** The bytes of an offset table, as `binary.Write` would lay them out. */
  function EncodeTable(raw: seq<int>): (b: seq<byte>)
    requires forall i :: 0 <= i < |raw| ==> IsUint32(raw[i])
    ensures |b| == 4 * |raw|
  {
    if raw == [] then [] else LeBytes(raw[0]) + EncodeTable(raw[1..])
  }

  /** Decoding an encoded table gives it back, whatever follows it. */
  lemma {:induction false} TableRoundTrip(raw: seq<int>, rest: seq<byte>)
    requires forall i :: 0 <= i < |raw| ==> IsUint32(raw[i])
    ensures DecodeTable(EncodeTable(raw) + rest, |raw|) == raw
  {
    if raw != [] {
      var b := EncodeTable(raw) + rest;
      assert b[4..] == EncodeTable(raw[1..]) + rest;
      assert b[..4] == LeBytes(raw[0]);
      LeRoundTrip(raw[0]);
      TableRoundTrip(raw[1..], rest);
    }
  }

  /** `t + 4` in `uint32` arithmetic: wraps past 2^32 without error. */
  function Rebase(t: int): (o: int)
    requires IsUint32(t)
    ensures IsUint32(o)
    ensures t < Two32 - OffsetBias ==> o == t + OffsetBias
    ensures t >= Two32 - OffsetBias ==> o == t + OffsetBias - Two32
  {
    Uint32(t + OffsetBias)
  }

  /** The absolute offsets `readHeader` appends to `trackOffsets`, in table order. */
  function AbsoluteOffsets(raw: seq<int>): (offsets: seq<int>)
    requires forall i :: 0 <= i < |raw| ==> IsUint32(raw[i])
    ensures |offsets| == |raw|
    ensures forall i :: 0 <= i < |raw| ==> offsets[i] == Rebase(raw[i])
  {
    if raw == [] then [] else [Rebase(raw[0])] + AbsoluteOffsets(raw[1..])
  }

  /** `readHeader` as a function of the whole stream: the absolute track
      offsets, or the first failure met. */
  function Directory(src: seq<byte>): (r: Result<seq<int>, Err>)
    ensures r.Ok? <==> Acceptable(src)
    ensures r.Ok? ==> |r.value| == TrackCount(src)
  {
    if |src| < HeaderLen then Fail(Truncated)
    else
      HeaderFields(src);
      var h := DecodeHeader(src[..HeaderLen]);
      if h.header != Form then Fail(InvalidHeader(h.header))
      else if h.subHeader != Audo then Fail(InvalidSubHeader(h.subHeader))
      else if |src| - HeaderLen < 4 * h.tracks then Fail(Truncated)
      else Ok(AbsoluteOffsets(DecodeTable(src[HeaderLen..HeaderLen + 4 * h.tracks], h.tracks)))
  }

  /** The size `calculateTracks` gives a track followed by another: the gap,
      clamped only from above, then truncated to `uint32`. */
  function GapSize(cur: int, next: int): (s: int)
    ensures IsUint32(s)
    ensures 0 <= next - cur <= MaxUint32 ==> s == next - cur
    ensures next - cur >= MaxUint32 ==> s == MaxUint32
    ensures -Two32 <= next - cur < 0 ==> s == next - cur + Two32
  {
    var size := next - cur;
    Uint32(if size >= MaxUint32 then MaxUint32 else size)
  }

  /** Descriptor i of a directory: its offset, and its size from the next
      offset, or `MaxUint32` for the last one. */
  function Entry(offsets: seq<int>, i: nat): TrackInfo
    requires i < |offsets|
  {
    TrackInfo(offsets[i],
              if i < |offsets| - 1 then GapSize(offsets[i], offsets[i + 1]) else MaxUint32)
  }

  /** Size inference over the whole offset list, one track at a time from
      the front. */
  function InferSizes(offsets: seq<int>): (ti: seq<TrackInfo>)
    ensures |ti| == |offsets|
    ensures |ti| > 0 ==> ti[|ti| - 1].size == MaxUint32
  {
    if |offsets| == 0 then []
    else if |offsets| == 1 then [TrackInfo(offsets[0], MaxUint32)]
    else [TrackInfo(offsets[0], GapSize(offsets[0], offsets[1]))] + InferSizes(offsets[1..])
  }

  lemma {:induction false} InferSizesAt(offsets: seq<int>, i: nat)
    requires i < |offsets|
    ensures InferSizes(offsets)[i] == Entry(offsets, i)
  {
    if i > 0 {
      InferSizesAt(offsets[1..], i - 1);
    }
  }

  /** What `New` followed by `Tracks` yields for a stream. */
  function Parse(src: seq<byte>): (r: Result<seq<TrackInfo>, Err>)
    ensures r.Ok? <==> Acceptable(src)
    ensures r.Ok? ==> |r.value| == TrackCount(src)
  {
    match Directory(src)
    case Fail(e) => Fail(e)
    case Ok(offsets) => Ok(InferSizes(offsets))
  }

  /** The track count stored at bytes 16..19. */
  function TrackCount(src: seq<byte>): (n: int)
    requires |src| >= HeaderLen
    ensures IsUint32(n)
  {
    LeU32(src, 16)
  }

  /** The stream holds both magics and the whole offset table. */
  predicate Acceptable(src: seq<byte>) {
    |src| >= HeaderLen && src[..4] == Form && src[8..12] == Audo &&
    |src| >= HeaderLen + 4 * TrackCount(src)
  }

  /** The header fields sit at fixed byte positions of the stream. */
  lemma HeaderFields(src: seq<byte>)
    requires |src| >= HeaderLen
    ensures DecodeHeader(src[..HeaderLen]) ==
            RawHeader(src[..4], LeU32(src, 4), src[8..12], LeU32(src, 12), TrackCount(src))
  {
    var b := src[..HeaderLen];
    assert b[..4] == src[..4] && b[8..12] == src[8..12];
  }

  /** `readHeader`'s outcome by cases on the stream's bytes. */
  lemma DirectoryCases(src: seq<byte>)
    ensures |src| < HeaderLen ==> Directory(src) == Fail(Truncated)
    ensures |src| >= HeaderLen && src[..4] != Form ==>
              Directory(src) == Fail(InvalidHeader(src[..4]))
    ensures |src| >= HeaderLen && src[..4] == Form && src[8..12] != Audo ==>
              Directory(src) == Fail(InvalidSubHeader(src[8..12]))
    ensures (|src| >= HeaderLen && src[..4] == Form && src[8..12] == Audo &&
             |src| < HeaderLen + 4 * TrackCount(src)) ==> Directory(src) == Fail(Truncated)
    ensures Acceptable(src) ==>
              var n := TrackCount(src);
              Directory(src) == Ok(AbsoluteOffsets(DecodeTable(src[HeaderLen..HeaderLen + 4 * n], n)))
  {
    if |src| >= HeaderLen {
      HeaderFields(src);
    }
  }

  /** Which failure a rejected stream gets: a short header, then `FORM`,
      then `AUDO`, then a short table, in that order. */
  lemma ParseErrors(src: seq<byte>)
    ensures Parse(src).Ok? <==> Acceptable(src)
    ensures |src| < HeaderLen ==> Parse(src) == Fail(Truncated)
    ensures |src| >= HeaderLen && src[..4] != Form ==>
              Parse(src) == Fail(InvalidHeader(src[..4]))
    ensures |src| >= HeaderLen && src[..4] == Form && src[8..12] != Audo ==>
              Parse(src) == Fail(InvalidSubHeader(src[8..12]))
    ensures (|src| >= HeaderLen && src[..4] == Form && src[8..12] == Audo &&
             |src| < HeaderLen + 4 * TrackCount(src)) ==> Parse(src) == Fail(Truncated)
  {
    DirectoryCases(src);
  }

  /** On success there is one descriptor per table entry, in table order;
      entry i starts at the rebased word at byte 20 + 4 * i, and its size is
      the gap to the next entry, or `MaxUint32` for the last. */
  lemma ParseEntries(src: seq<byte>)
    requires Parse(src).Ok?
    ensures Acceptable(src)
    ensures |Parse(src).value| == TrackCount(src)
    ensures forall i :: 0 <= i < |Parse(src).value| ==>
              Parse(src).value[i].offset == Rebase(LeU32(src, HeaderLen + 4 * i))
    ensures forall i :: 0 <= i < |Parse(src).value| - 1 ==>
              Parse(src).value[i].size ==
              GapSize(Parse(src).value[i].offset, Parse(src).value[i + 1].offset)
    ensures |Parse(src).value| > 0 ==> Parse(src).value[|Parse(src).value| - 1].size == MaxUint32
  {
    var offsets := ParsedOffsets(src);
    var ti := Parse(src).value;
    forall i | 0 <= i < |ti|
      ensures ti[i] == Entry(offsets, i)
    {
      InferSizesAt(offsets, i);
    }
  }

  /** An accepted stream's descriptors are the sizes inferred from its
      rebased table words. */
  lemma ParsedOffsets(src: seq<byte>) returns (offsets: seq<int>)
    requires Parse(src).Ok?
    ensures Acceptable(src)
    ensures |offsets| == TrackCount(src)
    ensures forall i :: 0 <= i < |offsets| ==> offsets[i] == Rebase(LeU32(src, HeaderLen + 4 * i))
    ensures Parse(src) == Ok(InferSizes(offsets))
  {
    DirectoryCases(src);
    var n := TrackCount(src);
    var raw := DecodeTable(src[HeaderLen..HeaderLen + 4 * n], n);
    offsets := AbsoluteOffsets(raw);
    forall i | 0 <= i < n
      ensures offsets[i] == Rebase(LeU32(src, HeaderLen + 4 * i))
    {
      TableEntry(src, n, i);
    }
  }

  /** Entry i of the decoded table is the word at byte 20 + 4 * i of the stream. */
  lemma TableEntry(src: seq<byte>, n: nat, i: nat)
    requires HeaderLen + 4 * n <= |src| && i < n
    ensures DecodeTable(src[HeaderLen..HeaderLen + 4 * n], n)[i] == LeU32(src, HeaderLen + 4 * i)
  {
    var table := src[HeaderLen..HeaderLen + 4 * n];
    DecodeTableAt(table, n, i);
    assert table[4 * i..4 * i + 4] == src[HeaderLen + 4 * i..HeaderLen + 4 * i + 4];
  }

  /** All offsets and sizes fit their Go types: `0 <= Offset < 2^32` and
      `Size` is a `uint32`. */
  lemma ParseInRange(src: seq<byte>)
    requires Parse(src).Ok?
    ensures forall t :: t in Parse(src).value ==> IsUint32(t.offset) && IsUint32(t.size)
  {
    ParseEntries(src);
    var ti := Parse(src).value;
    forall t | t in ti
      ensures IsUint32(t.offset) && IsUint32(t.size)
    {
      var i :| 0 <= i < |ti| && ti[i] == t;
      assert t.offset == Rebase(LeU32(src, HeaderLen + 4 * i));
      if i < |ti| - 1 {
        assert t.size == GapSize(ti[i].offset, ti[i + 1].offset);
      } else {
        assert t.size == MaxUint32;
      }
    }
  }

  /** A zero track count gives an empty list and no error, whatever follows
      the header. */
  lemma ParseNoTracks(src: seq<byte>)
    requires |src| >= HeaderLen && src[..4] == Form && src[8..12] == Audo
    requires TrackCount(src) == 0
    ensures Parse(src) == Ok([])
  {
  }

  /** The file-size and size fields (bytes 4..7 and 12..15) never affect the
      result. */
  lemma ParseIgnoresSizeFields(src: seq<byte>, fileSize: seq<byte>, size: seq<byte>)
    requires |src| >= HeaderLen && |fileSize| == 4 && |size| == 4
    ensures Parse(src[..4] + fileSize + src[8..12] + size + src[16..]) == Parse(src)
  {
    var src' := src[..4] + fileSize + src[8..12] + size + src[16..];
    assert |src'| == |src|;
    assert src'[..4] == src[..4] && src'[8..12] == src[8..12];
    assert src'[16..] == src[16..];
    assert src'[16..20] == src[16..20];
    assert src'[HeaderLen..] == src[HeaderLen..];
    assert forall k :: 0 <= k < 4 || 8 <= k < 12 || 16 <= k < |src| ==> src'[k] == src[k];
    assert src'[..HeaderLen][..4] == src[..HeaderLen][..4];
    assert src'[..HeaderLen][8..12] == src[..HeaderLen][8..12];
    assert src'[..HeaderLen][16..20] == src[..HeaderLen][16..20];
    var h, h' := DecodeHeader(src[..HeaderLen]), DecodeHeader(src'[..HeaderLen]);
    assert h'.header == h.header && h'.subHeader == h.subHeader && h'.tracks == h.tracks;
    if |src| - HeaderLen >= 4 * h.tracks {
      assert src'[HeaderLen..HeaderLen + 4 * h.tracks] == src[HeaderLen..HeaderLen + 4 * h.tracks];
    }
  }

  lemma SplitConcat<T>(a: seq<T>, b: seq<T>)
    ensures (a + b)[..|a|] == a && (a + b)[|a|..] == b
  {
  }

  lemma ConcatAssoc<T>(a: seq<T>, b: seq<T>, c: seq<T>)
    ensures a + (b + c) == a + b + c
  {
  }

  lemma EncodedHeaderPrefix(h: RawHeader, rest: seq<byte>)
    requires WellFormedHeader(h)
    ensures |EncodeHeader(h) + rest| >= HeaderLen
    ensures DecodeHeader((EncodeHeader(h) + rest)[..HeaderLen]) == h
    ensures (EncodeHeader(h) + rest)[HeaderLen..] == rest
  {
    SplitConcat(EncodeHeader(h), rest);
    HeaderRoundTrip(h);
  }

  lemma EncodedTablePrefix(raw: seq<int>, payload: seq<byte>)
    requires forall i :: 0 <= i < |raw| ==> IsUint32(raw[i])
    ensures |EncodeTable(raw) + payload| >= 4 * |raw|
    ensures DecodeTable((EncodeTable(raw) + payload)[..4 * |raw|], |raw|) == raw
  {
    SplitConcat(EncodeTable(raw), payload);
    assert (EncodeTable(raw) + payload)[..4 * |raw|] == EncodeTable(raw) + [];
    TableRoundTrip(raw, []);
  }

  /** A container written by the format's own layout (header with both
      magics, then the table) decodes to the rebased table with sizes
      inferred, whatever track data follows. */
  lemma ParseEncoded(fileSize: int, size: int, raw: seq<int>, payload: seq<byte>)
    requires IsUint32(fileSize) && IsUint32(size) && |raw| < Two32
    requires forall i :: 0 <= i < |raw| ==> IsUint32(raw[i])
    ensures var h := RawHeader(Form, fileSize, Audo, size, |raw|);
            Parse(EncodeHeader(h) + EncodeTable(raw) + payload) == Ok(InferSizes(AbsoluteOffsets(raw)))
  {
    var h := RawHeader(Form, fileSize, Audo, size, |raw|);
    var rest := EncodeTable(raw) + payload;
    var src := EncodeHeader(h) + rest;
    ConcatAssoc(EncodeHeader(h), EncodeTable(raw), payload);
    EncodedHeaderPrefix(h, rest);
    EncodedTablePrefix(raw, payload);
    assert src[HeaderLen..HeaderLen + 4 * |raw|] == rest[..4 * |raw|];
    assert Directory(src) == Ok(AbsoluteOffsets(raw));
  }

  /** Two tracks whose stored offsets are 0 and 16 start at bytes 4 and 20:
      the first is 16 bytes long, the second runs to the end of the file. */
  lemma ExampleTwoTracks(fileSize: int, size: int, payload: seq<byte>)
    requires IsUint32(fileSize) && IsUint32(size)
    ensures Parse(EncodeHeader(RawHeader(Form, fileSize, Audo, size, 2)) + EncodeTable([0, 16]) + payload)
            == Ok([TrackInfo(4, 16), TrackInfo(20, MaxUint32)])
  {
    ParseEncoded(fileSize, size, [0, 16], payload);
    assert AbsoluteOffsets([0, 16]) == [4, 20];
    assert [4, 20][1..] == [20];
    assert InferSizes([4, 20]) == [TrackInfo(4, 16), TrackInfo(20, MaxUint32)];
  }

  /** A stored offset of 0xFFFF_FFFE wraps to 2, below the track before it;
      the negative gap becomes a size just under 2^32 instead of an error. */
  lemma ExampleWrappedOffset(fileSize: int, size: int, payload: seq<byte>)
    requires IsUint32(fileSize) && IsUint32(size)
    ensures Parse(EncodeHeader(RawHeader(Form, fileSize, Audo, size, 2)) + EncodeTable([0x10, 0xFFFF_FFFE]) + payload)
            == Ok([TrackInfo(0x14, 0xFFFF_FFEE), TrackInfo(2, MaxUint32)])
  {
    ParseEncoded(fileSize, size, [0x10, 0xFFFF_FFFE], payload);
    assert AbsoluteOffsets([0x10, 0xFFFF_FFFE]) == [0x14, 2];
    assert [0x14, 2][1..] == [2];
    assert InferSizes([0x14, 2]) == [TrackInfo(0x14, 0xFFFF_FFEE), TrackInfo(2, MaxUint32)];
  }

  /** The reader of reader/reader.go. Its stream is modelled as the bytes it
      would deliver (`source`) and a read position (`pos`). */
  class Reader {
    const source: seq<byte>
    var pos: nat
    var trackOffsets: seq<int>
    var ti: seq<TrackInfo>

    ghost predicate Valid()
      reads this
    {
      pos <= |source|
    }

    /** The reader holds exactly the descriptors its stream decodes to. */
    ghost predicate Decoded()
      reads this
    {
      Parse(source) == Ok(ti)
    }

    /** The struct literal `Reader{r: r}`: nothing read, no tracks yet. */
    constructor (source: seq<byte>)
      ensures this.source == source && pos == 0 && trackOffsets == [] && ti == []
      ensures Valid()
    {
      this.source := source;
      pos := 0;
      trackOffsets := [];
      ti := [];
    }

    /** `io.ReadFull` under `binary.Read`: n bytes, or `Truncated` once the
        stream is exhausted. */
    method ReadFull(n: nat) returns (chunk: Result<seq<byte>, Err>)
      requires Valid()
      modifies this`pos
      ensures Valid()
      ensures old(pos) + n <= |source| ==>
                chunk == Ok(source[old(pos)..old(pos) + n]) && pos == old(pos) + n
      ensures old(pos) + n > |source| ==> chunk == Fail(Truncated) && pos == |source|
    {
      if n <= |source| - pos {
        chunk := Ok(source[pos..pos + n]);
        pos := pos + n;
      } else {
        chunk := Fail(Truncated);
        pos := |source|;
      }
    }

    /** `readHeader`: reads the header, checks both magics, reads the table
        and appends each rebased offset to `trackOffsets`. */
    method ReadHeader() returns (err: Option<Err>)
      requires Valid() && pos == 0 && trackOffsets == []
      modifies this`pos, this`trackOffsets
      ensures Valid()
      ensures err.None? <==> Directory(source).Ok?
      ensures err.Some? ==> Directory(source) == Fail(err.value) && trackOffsets == []
      ensures err.None? ==> trackOffsets == Directory(source).value &&
                            pos == HeaderLen + 4 * |trackOffsets|
    {
      var chunk := ReadFull(HeaderLen);
      if chunk.Fail? {
        assert Directory(source) == Fail(Truncated) by {
          DirectoryCases(source);
        }
        return Some(chunk.error);
      }
      assert chunk.value == source[..HeaderLen];
      var header := DecodeHeader(chunk.value);
      assert header.header == source[..4] && header.subHeader == source[8..12] &&
             header.tracks == TrackCount(source) by {
        HeaderFields(source);
      }
      if header.header != Form {
        assert Directory(source) == Fail(InvalidHeader(header.header)) by {
          DirectoryCases(source);
        }
        return Some(InvalidHeader(header.header));
      }
      if header.subHeader != Audo {
        assert Directory(source) == Fail(InvalidSubHeader(header.subHeader)) by {
          DirectoryCases(source);
        }
        return Some(InvalidSubHeader(header.subHeader));
      }
      var table := ReadFull(4 * header.tracks);
      if table.Fail? {
        assert Directory(source) == Fail(Truncated) by {
          DirectoryCases(source);
        }
        return Some(table.error);
      }
      assert table.value == source[HeaderLen..HeaderLen + 4 * header.tracks];
      var raw := DecodeTable(table.value, header.tracks);
      assert Directory(source) == Ok(AbsoluteOffsets(raw)) by {
        DirectoryCases(source);
      }
      AppendOffsets(raw);
      return None;
    }

    /** The loop at the end of `readHeader`: appends `t + 4` (in `uint32`
        arithmetic) for every table word t, in order. */
    method AppendOffsets(raw: seq<int>)
      requires trackOffsets == []
      requires forall i :: 0 <= i < |raw| ==> IsUint32(raw[i])
      modifies this`trackOffsets
      ensures trackOffsets == AbsoluteOffsets(raw)
    {
      for k := 0 to |raw|
        invariant |trackOffsets| == k
        invariant forall i :: 0 <= i < k ==> trackOffsets[i] == Rebase(raw[i])
      {
        trackOffsets := trackOffsets + [Uint32(raw[k] + OffsetBias)];
      }
    }

    /** `calculateTracks`: one descriptor per offset, appended in order. */
    method CalculateTracks()
      requires ti == []
      modifies this`ti
      ensures ti == InferSizes(trackOffsets)
    {
      for idx := 0 to |trackOffsets|
        invariant |ti| == idx
        invariant forall k :: 0 <= k < idx ==> ti[k] == Entry(trackOffsets, k)
      {
        var t := trackOffsets[idx];
        var info := TrackInfo(t, 0);
        if idx != |trackOffsets| - 1 {
          var size := trackOffsets[idx + 1] - t;
          if size >= MaxUint32 {
            size := MaxUint32;
          }
          info := info.(size := Uint32(size));
        } else {
          info := info.(size := MaxUint32);
        }
        ti := ti + [info];
      }
      forall k | 0 <= k < |ti|
        ensures ti[k] == InferSizes(trackOffsets)[k]
      {
        InferSizesAt(trackOffsets, k);
      }
    }

    /** `Tracks`: the descriptors computed at construction, as they are. */
    function Tracks(): (l: seq<TrackInfo>)
      reads this
      ensures Decoded() ==> Parse(source) == Ok(l)
    {
      ti
    }

    /** `New`: reads the directory, and only when that succeeds infers the
        sizes. On failure no descriptor is exposed. */
    static method New(source: seq<byte>) returns (rdr: Reader, err: Option<Err>)
      ensures fresh(rdr) && rdr.source == source
      ensures err.None? <==> Parse(source).Ok?
      ensures err.None? ==> rdr.Decoded()
      ensures err.Some? ==> Parse(source) == Fail(err.value) && rdr.ti == []
      ensures rdr.Valid()
      ensures rdr.trackOffsets == if err.None? then Directory(source).value else []
    {
      rdr := new Reader(source);
      err := rdr.ReadHeader();
      if err.Some? {
        return;
      }
      rdr.CalculateTracks();
    }
  }
}
