/** The track loop of main.go: for each descriptor, seek, read, skip or stop,
    pick an extension and a file name, and write what was read. The file
    system is abstracted: what each seek and read returned is an input, and
    the files written are the output. */
module Extractor {
  import opened LittleEndian
  import opened Reader
  import opened Format

  /** What `f.Read(buffer)` returned: some bytes, `io.EOF`, or another error. */
  datatype ReadResult = Filled(data: seq<byte>) | EndOfFile | ReadFailed

  /** What the file system did for one track: whether `f.Seek` succeeded,
      and what the following read returned (unused when no read happens). */
  datatype TrackIo = TrackIo(seekOk: bool, read: ReadResult)

  datatype SkipReason = EmptyTrack | ShortRead

  /** One extracted file: the track's position `index` in the list, the
      number `ordinal` shown in the "Wrote #" line, its name and its bytes. */
  datatype Dump = Dump(index: nat, ordinal: nat, name: string, contents: seq<byte>)

  /** The fate of one track: skipped (`continue`), end of the loop
      (`break`), fatal (`os.Exit(1)`), or a file written. */
  datatype Action = Skip(reason: SkipReason) | Stop | Exit | Write(dump: Dump)

  /** How the loop ended: after the last track, at an `io.EOF`, or at a
      fatal error; `at` is the track where it ended. */
  datatype Outcome = Completed | StoppedAtEof(at: nat) | Exited(at: nat)

  const Riff: seq<byte> := [0x52, 0x49, 0x46, 0x46]  // ASCII "RIFF"
  const Wav: string := "wav"
  const Dat: string := "dat"

  /** The extension guessed from a track's first four bytes. */
  function Extension(magic: seq<byte>): (ext: string)
    ensures ext == Wav || ext == Dat
    ensures ext == Wav <==> magic == Riff
  {
    if magic == Riff then Wav else Dat
  }

  /** `fmt.Sprintf("dump-%v-%03d-%08x.%v", bname, idx, offset, fext)`. */
  function OutputName(bname: string, idx: nat, offset: nat, ext: string): (name: string)
  {
    "dump-" + bname + "-" + Decimal(idx, 3) + "-" + Hex(offset, 8) + "." + ext
  }

  /** The size is a `uint32`, and a read never returns more than
      `len(buffer)`, which is that size. */
  predicate Fits(t: TrackInfo, io: TrackIo) {
    IsUint32(t.size) && (io.read.Filled? ==> |io.read.data| <= t.size)
  }

  function Zeroed(k: nat): (z: seq<byte>)
    ensures |z| == k
  {
    seq(k, _ => 0 as byte)
  }

  /** The body of the loop for track `idx`. A negative offset is a failed
      seek. `buffer` is `make([]byte, t.Size)` after the read filled its
      prefix. */
  function Step(bname: string, idx: nat, t: TrackInfo, io: TrackIo): (a: Action)
    requires Fits(t, io)
    ensures a.Write? ==> a.dump.index == idx && a.dump.ordinal == idx + 1
  {
    if !io.seekOk || t.offset < 0 then Exit
    else if t.size == 0 then Skip(EmptyTrack)
    else
      match io.read
      case EndOfFile => Stop
      case ReadFailed => Exit
      case Filled(data) =>
        var buffer := data + Zeroed(t.size - |data|);
        var readbytes := |data|;
        if readbytes <= 4 then Skip(ShortRead)
        else
          var ext := Extension(buffer[..4]);
          Write(Dump(idx, idx + 1, OutputName(bname, idx, t.offset, ext), buffer[..readbytes]))
  }

  predicate AllFit(tracks: seq<TrackInfo>, ios: seq<TrackIo>) {
    |ios| == |tracks| && forall i :: 0 <= i < |tracks| ==> Fits(tracks[i], ios[i])
  }

  /** The loop from track i on: how it ends and the files it writes, in order. */
  function Run(bname: string, tracks: seq<TrackInfo>, ios: seq<TrackIo>, i: nat): (r: (Outcome, seq<Dump>))
    requires AllFit(tracks, ios) && i <= |tracks|
    ensures !r.0.Completed? ==> i <= r.0.at < |tracks|
    decreases |tracks| - i
  {
    if i == |tracks| then (Completed, [])
    else
      match Step(bname, i, tracks[i], ios[i])
      case Skip(_) => Run(bname, tracks, ios, i + 1)
      case Stop => (StoppedAtEof(i), [])
      case Exit => (Exited(i), [])
      case Write(d) =>
        var rest := Run(bname, tracks, ios, i + 1);
        (rest.0, [d] + rest.1)
  }

  /** The fate of one track, in the order the loop tests things: the seek
      first (even for an empty track), then the size (an empty track is
      skipped whatever a read would have returned), then the read. A file
      is written exactly when all three pass and more than four bytes came
      back. */
  lemma StepCases(bname: string, idx: nat, t: TrackInfo, io: TrackIo, other: ReadResult)
    requires Fits(t, io) && Fits(t, TrackIo(true, other))
    ensures !io.seekOk || t.offset < 0 ==> Step(bname, idx, t, io) == Exit
    ensures io.seekOk && t.offset >= 0 && t.size == 0 ==>
              Step(bname, idx, t, io) == Skip(EmptyTrack) &&
              Step(bname, idx, t, io) == Step(bname, idx, t, TrackIo(true, other))
    ensures io.seekOk && t.offset >= 0 && t.size > 0 ==>
              (Step(bname, idx, t, io) == Stop <==> io.read.EndOfFile?) &&
              (io.read.ReadFailed? ==> Step(bname, idx, t, io) == Exit) &&
              (io.read.Filled? && |io.read.data| <= 4 ==> Step(bname, idx, t, io) == Skip(ShortRead))
    ensures Step(bname, idx, t, io).Write? <==>
              io.seekOk && t.offset >= 0 && t.size > 0 && io.read.Filled? && |io.read.data| > 4
  {
  }

  /** The `for idx, t := range tracks` loop of main.go. */
  method ExtractAll(bname: string, tracks: seq<TrackInfo>, ios: seq<TrackIo>)
    returns (outcome: Outcome, dumps: seq<Dump>)
    requires AllFit(tracks, ios)
    ensures (outcome, dumps) == Run(bname, tracks, ios, 0)
  {
    outcome, dumps := Completed, [];
    for idx := 0 to |tracks|
      invariant Run(bname, tracks, ios, 0).0 == Run(bname, tracks, ios, idx).0
      invariant Run(bname, tracks, ios, 0).1 == dumps + Run(bname, tracks, ios, idx).1
      invariant outcome == Completed
    {
      var t := tracks[idx];
      ghost var step := Step(bname, idx, t, ios[idx]);
      if !ios[idx].seekOk || t.offset < 0 {
        assert step == Exit;
        assert dumps + [] == dumps;
        return Exited(idx), dumps;
      }
      var offset: nat := t.offset;
      if t.size == 0 {
        assert step == Skip(EmptyTrack);
        continue;
      }
      var buffer := Zeroed(t.size);
      var readbytes: nat;
      match ios[idx].read {
        case EndOfFile =>
          assert step == Stop;
          assert Run(bname, tracks, ios, idx) == (StoppedAtEof(idx), []);
          outcome := StoppedAtEof(idx);
          assert dumps + [] == dumps;
          break;
        case ReadFailed =>
          assert step == Exit;
          assert dumps + [] == dumps;
          return Exited(idx), dumps;
        case Filled(data) =>
          buffer := data + buffer[|data|..];
          assert buffer == data + Zeroed(t.size - |data|);
          readbytes := |data|;
      }
      if readbytes <= 4 {
        assert step == Skip(ShortRead);
        continue;
      }
      var fext := Dat;
      if buffer[..4] == Riff {
        fext := Wav;
      }
      var fname := OutputName(bname, idx, offset, fext);
      var dump := Dump(idx, idx + 1, fname, buffer[..readbytes]);
      assert step == Write(dump);
      ConcatAssoc(dumps, [dump], Run(bname, tracks, ios, idx + 1).1);
      dumps := dumps + [dump];
    }
    assert dumps + [] == dumps;
  }

  /** Where each field sits in a name: the text before the decimal digits
      has `6 + |bname|` characters and the hexadecimal digits start one
      after the decimal ones. */
  lemma NameLayout(name: string, bname: string, d: string, h: string, ext: string)
    requires |h| == 8 && |ext| == 3
    requires name == "dump-" + bname + "-" + d + "-" + h + "." + ext
    ensures var p := 6 + |bname|;
            var w := |d|;
            |name| == p + w + 13 &&
            name[..5] == "dump-" && name[5..p - 1] == bname && name[p - 1] == '-' &&
            name[p..p + w] == d && name[p + w] == '-' &&
            name[p + w + 1..p + w + 9] == h && name[p + w + 9] == '.' &&
            name[p + w + 10..] == ext
  {
  }

  /** The fields of a file name can be read back from it: the base name,
      the track index (from the decimal digits), the offset (from the eight
      hexadecimal digits) and the extension. */
  lemma NameFields(name: string, bname: string, idx: nat, offset: nat, ext: string)
    requires IsUint32(offset) && |ext| == 3
    requires name == OutputName(bname, idx, offset, ext)
    ensures |Decimal(idx, 3)| >= 3
    ensures |name| == 19 + |bname| + |Decimal(idx, 3)|
    ensures name[..5] == "dump-" && name[5..5 + |bname|] == bname
    ensures ValueOf(name[6 + |bname|..6 + |bname| + |Decimal(idx, 3)|], 10) == idx
    ensures ValueOf(name[7 + |bname| + |Decimal(idx, 3)|..15 + |bname| + |Decimal(idx, 3)|], 16) == offset
    ensures name[|name| - 4..] == "." + ext
    ensures 6 + |bname| <= |name| - 13 && ValueOf(name[6 + |bname|..|name| - 13], 10) == idx
  {
    var d, h := Decimal(idx, 3), Hex(offset, 8);
    var p, w := 6 + |bname|, |d|;
    assert |h| == 8 by {
      HexWidth(offset);
    }
    assert ValueOf(d, 10) == idx by {
      PaddedRoundTrip(idx, 10, 3);
    }
    assert ValueOf(h, 16) == offset by {
      PaddedRoundTrip(offset, 16, 8);
    }
    NameLayout(name, bname, d, h, ext);
    assert name[|name| - 4..] == [name[p + w + 9]] + name[p + w + 10..];
  }

  /** Two tracks of one container never get the same file name. */
  lemma NamesDistinct(bname: string, i: nat, o1: nat, e1: string, j: nat, o2: nat, e2: string)
    requires IsUint32(o1) && IsUint32(o2) && |e1| == 3 && |e2| == 3
    requires i != j
    ensures OutputName(bname, i, o1, e1) != OutputName(bname, j, o2, e2)
  {
    NameIndex(bname, i, o1, e1);
    NameIndex(bname, j, o2, e2);
  }

  /** The track index reads back from the digits between the base name and
      the fixed-width tail of a name. */
  lemma NameIndex(bname: string, idx: nat, offset: nat, ext: string)
    requires IsUint32(offset) && |ext| == 3
    ensures var name := OutputName(bname, idx, offset, ext);
            6 + |bname| <= |name| - 13 && ValueOf(name[6 + |bname|..|name| - 13], 10) == idx
  {
    NameFields(OutputName(bname, idx, offset, ext), bname, idx, offset, ext);
  }

  /** A written track: its seek and read succeeded, its size is not zero, it
      holds exactly the more than four bytes read, it is numbered idx in its
      name and idx + 1 in the report, and its name ends in ".wav" exactly
      when those bytes start with "RIFF" (".dat" otherwise). */
  lemma StepWrite(bname: string, idx: nat, t: TrackInfo, io: TrackIo)
    requires Fits(t, io)
    requires Step(bname, idx, t, io).Write?
    ensures io.seekOk && t.size > 0 && io.read.Filled?
    ensures var d := Step(bname, idx, t, io).dump;
            d.contents == io.read.data && |d.contents| > 4 &&
            d.index == idx && d.ordinal == idx + 1
    ensures var d := Step(bname, idx, t, io).dump;
            d.name == OutputName(bname, idx, t.offset, Extension(d.contents[..4]))
    ensures var d := Step(bname, idx, t, io).dump;
            (d.name[|d.name| - 4..] == ".wav" <==> d.contents[..4] == Riff) &&
            (d.name[|d.name| - 4..] == ".dat" <==> d.contents[..4] != Riff)
  {
    var data := io.read.data;
    var buffer := data + Zeroed(t.size - |data|);
    assert buffer[..|data|] == data by {
      SplitConcat(data, Zeroed(t.size - |data|));
    }
    assert buffer[..4] == data[..4];
    var ext := Extension(data[..4]);
    var name := OutputName(bname, idx, t.offset, ext);
    var stem := "dump-" + bname + "-" + Decimal(idx, 3) + "-" + Hex(t.offset, 8);
    assert name == stem + ("." + ext) by {
      ConcatAssoc(stem, ".", ext);
    }
    SplitConcat(stem, "." + ext);
    assert "." + Wav == ".wav" && "." + Dat == ".dat";
    assert ".wav" != ".dat" by {
      assert ".wav"[1] != ".dat"[1];
    }
    assert Step(bname, idx, t, io).dump == Dump(idx, idx + 1, name, data);
  }

  /** Every dump comes from a `Write` step of a track at or after lo. */
  predicate WrittenFrom(bname: string, tracks: seq<TrackInfo>, ios: seq<TrackIo>, lo: int, dumps: seq<Dump>)
    requires AllFit(tracks, ios)
  {
    forall k :: 0 <= k < |dumps| ==>
      lo <= dumps[k].index < |tracks| &&
      Step(bname, dumps[k].index, tracks[dumps[k].index], ios[dumps[k].index]) == Write(dumps[k])
  }

  lemma WrittenCons(bname: string, tracks: seq<TrackInfo>, ios: seq<TrackIo>, i: nat, rest: seq<Dump>)
    requires AllFit(tracks, ios) && i < |tracks|
    requires Step(bname, i, tracks[i], ios[i]).Write?
    requires WrittenFrom(bname, tracks, ios, i + 1, rest)
    ensures WrittenFrom(bname, tracks, ios, i, [Step(bname, i, tracks[i], ios[i]).dump] + rest)
  {
    var dumps := [Step(bname, i, tracks[i], ios[i]).dump] + rest;
    forall k | 0 <= k < |dumps|
      ensures i <= dumps[k].index < |tracks|
      ensures Step(bname, dumps[k].index, tracks[dumps[k].index], ios[dumps[k].index]) == Write(dumps[k])
    {
      if k > 0 {
        assert dumps[k] == rest[k - 1];
      }
    }
  }

  /** Every file the loop writes from track i on comes from a `Write` step
      of a track at or after i. */
  lemma {:induction false} RunWrites(bname: string, tracks: seq<TrackInfo>, ios: seq<TrackIo>, i: nat)
    requires AllFit(tracks, ios) && i <= |tracks|
    ensures WrittenFrom(bname, tracks, ios, i, Run(bname, tracks, ios, i).1)
    decreases |tracks| - i
  {
    if i < |tracks| {
      RunWrites(bname, tracks, ios, i + 1);
      if Step(bname, i, tracks[i], ios[i]).Write? {
        WrittenCons(bname, tracks, ios, i, Run(bname, tracks, ios, i + 1).1);
      }
    }
  }

  /** Files are written in track order, at most one per track. */
  lemma RunOrdered(bname: string, tracks: seq<TrackInfo>, ios: seq<TrackIo>)
    requires AllFit(tracks, ios)
    ensures var dumps := Run(bname, tracks, ios, 0).1;
            forall k, l :: 0 <= k < l < |dumps| ==> dumps[k].index < dumps[l].index
  {
    RunOrderedFrom(bname, tracks, ios, 0);
  }

  /** Every dump comes from track lo or later. */
  predicate IndicesFrom(dumps: seq<Dump>, lo: int) {
    forall k :: 0 <= k < |dumps| ==> lo <= dumps[k].index
  }

  /** Strictly increasing track indices. */
  predicate InTrackOrder(dumps: seq<Dump>) {
    forall k, l :: 0 <= k < l < |dumps| ==> dumps[k].index < dumps[l].index
  }

  lemma OrderedCons(d: Dump, rest: seq<Dump>)
    requires InTrackOrder(rest) && IndicesFrom(rest, d.index + 1)
    ensures InTrackOrder([d] + rest) && IndicesFrom([d] + rest, d.index)
  {
    var dumps := [d] + rest;
    forall k, l | 0 <= k < l < |dumps|
      ensures dumps[k].index < dumps[l].index
    {
      assert dumps[l] == rest[l - 1];
      if k > 0 {
        assert dumps[k] == rest[k - 1];
      }
    }
  }

  lemma {:induction false} RunOrderedFrom(bname: string, tracks: seq<TrackInfo>, ios: seq<TrackIo>, i: nat)
    requires AllFit(tracks, ios) && i <= |tracks|
    ensures InTrackOrder(Run(bname, tracks, ios, i).1)
    ensures IndicesFrom(Run(bname, tracks, ios, i).1, i)
    decreases |tracks| - i
  {
    if i < |tracks| {
      RunOrderedFrom(bname, tracks, ios, i + 1);
      var a := Step(bname, i, tracks[i], ios[i]);
      if a.Write? {
        assert a.dump.index == i;
        OrderedCons(a.dump, Run(bname, tracks, ios, i + 1).1);
      }
    }
  }

  /** When the loop ends early at track j, that track's step was `Stop`
      (for an `io.EOF`) or `Exit`, and every file written comes from a track
      before j. */
  lemma {:induction false} RunEndsEarly(bname: string, tracks: seq<TrackInfo>, ios: seq<TrackIo>, i: nat)
    requires AllFit(tracks, ios) && i <= |tracks|
    requires !Run(bname, tracks, ios, i).0.Completed?
    ensures var (outcome, dumps) := Run(bname, tracks, ios, i);
            i <= outcome.at < |tracks| &&
            Step(bname, outcome.at, tracks[outcome.at], ios[outcome.at]) ==
              (if outcome.StoppedAtEof? then Stop else Exit) &&
            forall k :: 0 <= k < |dumps| ==> dumps[k].index < outcome.at
    decreases |tracks| - i
  {
    if i < |tracks| {
      var a := Step(bname, i, tracks[i], ios[i]);
      if a.Write? || a.Skip? {
        RunEndsEarly(bname, tracks, ios, i + 1);
      }
    }
  }

  /** The loop goes on past every track it skips or writes, so up to where
      it ends (the end of the table, or the track j it stopped or exited
      at) every track's step was `Skip` or `Write`, and every `Write` step
      before the end has its file among those written. With `RunEndsEarly`
      and `RunWrites`, the loop ends at the first `Stop` or `Exit` step and
      the files are exactly those of the `Write` steps before it. */
  lemma {:induction false} RunComplete(bname: string, tracks: seq<TrackInfo>, ios: seq<TrackIo>, i: nat)
    requires AllFit(tracks, ios) && i <= |tracks|
    ensures var (outcome, dumps) := Run(bname, tracks, ios, i);
            var end := if outcome.Completed? then |tracks| else outcome.at;
            forall k :: i <= k < end ==>
              (Step(bname, k, tracks[k], ios[k]).Skip? || Step(bname, k, tracks[k], ios[k]).Write?) &&
              (Step(bname, k, tracks[k], ios[k]).Write? ==> Step(bname, k, tracks[k], ios[k]).dump in dumps)
    decreases |tracks| - i
  {
    if i < |tracks| {
      var a := Step(bname, i, tracks[i], ios[i]);
      if a.Skip? || a.Write? {
        RunComplete(bname, tracks, ios, i + 1);
      }
    }
  }

  /** The loop completes exactly when no track's step is `Stop` or `Exit`. */
  lemma RunCompletes(bname: string, tracks: seq<TrackInfo>, ios: seq<TrackIo>)
    requires AllFit(tracks, ios)
    ensures Run(bname, tracks, ios, 0).0.Completed? <==>
            forall k :: 0 <= k < |tracks| ==>
              Step(bname, k, tracks[k], ios[k]).Skip? || Step(bname, k, tracks[k], ios[k]).Write?
  {
    RunComplete(bname, tracks, ios, 0);
    if !Run(bname, tracks, ios, 0).0.Completed? {
      RunEndsEarly(bname, tracks, ios, 0);
    }
  }

  /** Once the loop ends early at track j, nothing that the file system
      would have done for a later track changes what it wrote or how it
      ended: no later track is looked at. */
  lemma {:induction false} RunIgnoresLaterTracks(bname: string, tracks: seq<TrackInfo>,
                                                 ios: seq<TrackIo>, ios': seq<TrackIo>, i: nat)
    requires AllFit(tracks, ios) && AllFit(tracks, ios') && i <= |tracks|
    requires !Run(bname, tracks, ios, i).0.Completed?
    requires forall k :: i <= k <= Run(bname, tracks, ios, i).0.at && k < |tracks| ==> ios'[k] == ios[k]
    ensures Run(bname, tracks, ios', i) == Run(bname, tracks, ios, i)
    decreases |tracks| - i
  {
    RunEndsEarly(bname, tracks, ios, i);
    var j := Run(bname, tracks, ios, i).0.at;
    if i < j {
      RunIgnoresLaterTracks(bname, tracks, ios, ios', i + 1);
    }
  }
}
