/** The clip file: written by validation/ort_fusion_probe/make_clips.py, read by `load_clips` of
    validation/ort_fusion_probe/src/main.rs. A little-endian count, then each clip as a
    little-endian length followed by its samples. */
module ClipFile {
  import opened Wrappers
  import opened Bytes

  type Clip = seq<Word>

  /** What `struct.pack("<I", …)` can represent. */
  ghost predicate Packable(clips: seq<Clip>) {
    |clips| < WORD_LIMIT && forall i :: 0 <= i < |clips| ==> |clips[i]| < WORD_LIMIT
  }

  function Record(clip: Clip): seq<Byte>
    requires |clip| < WORD_LIMIT
  {
    ToLe(|clip|) + ToLeAll(clip)
  }

  ghost function Records(clips: seq<Clip>): seq<Byte>
    requires forall i :: 0 <= i < |clips| ==> |clips[i]| < WORD_LIMIT
  {
    if clips == [] then [] else Record(clips[0]) + Records(clips[1..])
  }

  ghost function Layout(clips: seq<Clip>): seq<Byte>
    requires Packable(clips)
  {
    ToLe(|clips|) + Records(clips)
  }

  /** One clip of one sample: a count of one, a length of one, the sample, each low byte first. */
  lemma LayoutOfOne(b0: Byte, b1: Byte, b2: Byte, b3: Byte)
    ensures Layout([[b0 + b1 * 0x100 + b2 * 0x1_0000 + b3 * 0x100_0000]]) == [1, 0, 0, 0, 1, 0, 0, 0, b0, b1, b2, b3]
  {
    var w: Word := b0 + b1 * 0x100 + b2 * 0x1_0000 + b3 * 0x100_0000;
    LowByteFirst(b0, b1, b2, b3);
    LowByteFirst(1, 0, 0, 0);
    assert ToLeAll([w]) == ToLe(w);
    assert Records([[w]]) == Record([w]);
  }

  // ---------------------------------------------------------------- the writer

  class OutFile {
    var data: seq<Byte>

    /** Opening for writing truncates. */
    constructor ()
      ensures data == []
    {
      data := [];
    }

    method Write(bytes: seq<Byte>)
      modifies this
      ensures data == old(data) + bytes
    {
      data := data + bytes;
    }
  }

  lemma {:induction false} RecordsAppend(clips: seq<Clip>, clip: Clip)
    requires forall i :: 0 <= i < |clips| ==> |clips[i]| < WORD_LIMIT
    requires |clip| < WORD_LIMIT
    ensures Records(clips + [clip]) == Records(clips) + Record(clip)
  {
    if clips == [] {
      assert [clip][1..] == [];
    } else {
      RecordsAppend(clips[1..], clip);
      assert (clips + [clip])[1..] == clips[1..] + [clip];
    }
  }

  /** Fails on the first count or length that does not fit in 32 bits. */
  method WriteClips(f: OutFile, clips: seq<Clip>) returns (ok: bool)
    requires f.data == []
    modifies f
    ensures ok <==> Packable(clips)
    ensures ok ==> f.data == Layout(clips)
  {
    if |clips| >= WORD_LIMIT { return false; }
    f.Write(ToLe(|clips|));
    for i := 0 to |clips|
      invariant forall j :: 0 <= j < i ==> |clips[j]| < WORD_LIMIT
      invariant f.data == ToLe(|clips|) + Records(clips[..i])
    {
      if |clips[i]| >= WORD_LIMIT { return false; }
      RecordsAppend(clips[..i], clips[i]);
      assert clips[..i + 1] == clips[..i] + [clips[i]];
      f.Write(ToLe(|clips[i]|));
      f.Write(ToLeAll(clips[i]));
    }
    assert clips[..|clips|] == clips;
    return true;
  }

  // ---------------------------------------------------------------- what reading results in

  /** The first record of `buf` and what follows it, unless it runs past the end. */
  function ReadOne(buf: seq<Byte>): Option<(Clip, seq<Byte>)> {
    if |buf| < 4 then None
    else
      var n := WordOf(buf[..4]);
      if |buf| - 4 < 4 * n then None else Some((FromLeAll(buf[4..][..4 * n]), buf[4..][4 * n..]))
  }

  function ReadMany(buf: seq<Byte>, n: nat): Option<(seq<Clip>, seq<Byte>)> {
    if n == 0 then Some(([], buf))
    else
      match ReadOne(buf)
      case None => None
      case Some((clip, rest)) =>
        match ReadMany(rest, n - 1)
        case None => None
        case Some((clips, tail)) => Some(([clip] + clips, tail))
  }

  /** The clips and the final offset, or `None` when an index panics. */
  function Load(buf: seq<Byte>): Option<(seq<Clip>, nat)> {
    if |buf| < 4 then None
    else
      match ReadMany(buf[4..], WordOf(buf[..4]))
      case None => None
      case Some((clips, tail)) => if |tail| <= |buf| then Some((clips, |buf| - |tail|)) else None
  }

  lemma ReadOneOfRecord(clip: Clip, rest: seq<Byte>)
    requires |clip| < WORD_LIMIT
    ensures ReadOne(Record(clip) + rest) == Some((clip, rest))
  {
    var head, body := ToLe(|clip|), ToLeAll(clip);
    var buf := Record(clip) + rest;
    assert buf[..4] == head && buf[4..] == body + rest;
    WordOfInvertsToLe(|clip|);
    assert (body + rest)[..4 * |clip|] == body && (body + rest)[4 * |clip|..] == rest;
    FromLeAllInvertsToLeAll(clip);
  }

  lemma ReadOneIsRecord(buf: seq<Byte>)
    requires ReadOne(buf).Some?
    ensures |ReadOne(buf).value.0| < WORD_LIMIT
    ensures buf == Record(ReadOne(buf).value.0) + ReadOne(buf).value.1
  {
    var n := WordOf(buf[..4]);
    ToLeInvertsWordOf(buf[..4]);
    ToLeAllInvertsFromLeAll(buf[4..][..4 * n]);
    assert buf == buf[..4] + buf[4..][..4 * n] + buf[4..][4 * n..];
  }

  lemma {:induction false} ReadManyCons(buf: seq<Byte>, clip: Clip, rest: seq<Byte>, clips: seq<Clip>, tail: seq<Byte>)
    requires ReadOne(buf) == Some((clip, rest)) && ReadMany(rest, |clips|) == Some((clips, tail))
    ensures ReadMany(buf, |clips| + 1) == Some(([clip] + clips, tail))
  {
  }

  lemma {:induction false} RecordsSplit(clips: seq<Clip>, tail: seq<Byte>)
    requires clips != [] && forall i :: 0 <= i < |clips| ==> |clips[i]| < WORD_LIMIT
    ensures Records(clips) + tail == Record(clips[0]) + (Records(clips[1..]) + tail)
    ensures clips == [clips[0]] + clips[1..]
  {
    assert Record(clips[0]) + Records(clips[1..]) + tail == Record(clips[0]) + (Records(clips[1..]) + tail);
  }

  lemma {:induction false} ReadManyOfRecords(clips: seq<Clip>, tail: seq<Byte>)
    requires forall i :: 0 <= i < |clips| ==> |clips[i]| < WORD_LIMIT
    ensures ReadMany(Records(clips) + tail, |clips|) == Some((clips, tail))
  {
    if clips == [] {
      assert Records(clips) + tail == tail;
    } else {
      var first, others := clips[0], clips[1..];
      var rest := Records(others) + tail;
      ReadManyOfRecords(others, tail);
      ReadOneOfRecord(first, rest);
      RecordsSplit(clips, tail);
      ReadManyCons(Record(first) + rest, first, rest, others, tail);
    }
  }

  lemma {:induction false} ReadManyIsRecords(buf: seq<Byte>, n: nat)
    requires ReadMany(buf, n).Some?
    ensures var (clips, tail) := ReadMany(buf, n).value;
            && |clips| == n
            && (forall i :: 0 <= i < n ==> |clips[i]| < WORD_LIMIT)
            && buf == Records(clips) + tail
  {
    if n > 0 {
      var (clip, rest) := ReadOne(buf).value;
      ReadOneIsRecord(buf);
      ReadManyIsRecords(rest, n - 1);
      var (clips, tail) := ReadMany(rest, n - 1).value;
      assert ([clip] + clips)[1..] == clips;
    }
  }

  lemma LoadOfLayout(clips: seq<Clip>, tail: seq<Byte>)
    requires Packable(clips)
    ensures Load(Layout(clips) + tail) == Some((clips, |Layout(clips)|))
  {
    var head := ToLe(|clips|);
    var buf := Layout(clips) + tail;
    assert buf[..4] == head && buf[4..] == Records(clips) + tail;
    WordOfInvertsToLe(|clips|);
    ReadManyOfRecords(clips, tail);
  }

  lemma LoadIsLayout(buf: seq<Byte>)
    requires Load(buf).Some?
    ensures var (clips, off) := Load(buf).value; Packable(clips) && off <= |buf| && buf[..off] == Layout(clips)
  {
    var n := WordOf(buf[..4]);
    ToLeInvertsWordOf(buf[..4]);
    ReadManyIsRecords(buf[4..], n);
    var (clips, tail) := ReadMany(buf[4..], n).value;
    assert buf == buf[..4] + Records(clips) + tail;
  }

  /** MAIN RESULT. The reader returns these clips and stops at this offset exactly when the bytes
      up to there are what the writer lays out for them; anything else makes it fail. */
  lemma LoadExactlyWhen(buf: seq<Byte>, clips: seq<Clip>, off: nat)
    ensures Load(buf) == Some((clips, off)) <==>
            Packable(clips) && off <= |buf| && buf[..off] == Layout(clips)
  {
    if Load(buf).Some? {
      LoadIsLayout(buf);
    }
    if Packable(clips) && off <= |buf| && buf[..off] == Layout(clips) {
      assert buf == Layout(clips) + buf[off..];
      LoadOfLayout(clips, buf[off..]);
    }
  }

  /** Reading what was written gives the clips back and ends at the end of the file. */
  lemma LoadInvertsLayout(clips: seq<Clip>)
    requires Packable(clips)
    ensures Load(Layout(clips)) == Some((clips, |Layout(clips)|))
  {
    LoadExactlyWhen(Layout(clips), clips, |Layout(clips)|);
  }

  // ---------------------------------------------------------------- the reader

  /** `rd`: a little-endian word at an offset, if it lies in the buffer. */
  function WordAt(buf: seq<Byte>, o: nat): Option<Word> {
    if o + 4 <= |buf| then Some(WordOf(buf[o..o + 4])) else None
  }

  /** The first words of `s`, in order. */
  ghost predicate AreWords(clip: Clip, s: seq<Byte>) {
    4 * |clip| <= |s| && forall j :: 0 <= j < |clip| ==> clip[j] == WordOf(s[4 * j..4 * j + 4])
  }

  lemma WordsSnoc(clip: Clip, s: seq<Byte>, w: Word)
    requires AreWords(clip, s) && 4 * |clip| + 4 <= |s| && w == WordOf(s[4 * |clip|..4 * |clip| + 4])
    ensures AreWords(clip + [w], s)
  {
  }

  lemma Shifted(buf: seq<Byte>, off: nat, k: nat)
    requires off + k + 4 <= |buf|
    ensures buf[off + k..off + k + 4] == buf[off..][k..k + 4]
  {
  }

  method ReadSamples(buf: seq<Byte>, off: nat, len: nat) returns (r: Option<Clip>)
    requires off <= |buf|
    ensures r == if 4 * len <= |buf[off..]| then Some(FromLeAll(buf[off..][..4 * len])) else None
  {
    var clip: Clip := [];
    for i := 0 to len
      invariant off + 4 * i <= |buf| && |clip| == i && AreWords(clip, buf[off..])
    {
      var w := WordAt(buf, off + i * 4);
      if w.None? { return None; }
      Shifted(buf, off, 4 * i);
      WordsSnoc(clip, buf[off..], w.value);
      clip := clip + [w.value];
    }
    SamplesAre(clip, buf[off..]);
    return Some(clip);
  }

  lemma SamplesAre(clip: Clip, s: seq<Byte>)
    requires AreWords(clip, s)
    ensures clip == FromLeAll(s[..4 * |clip|])
  {
    var body := s[..4 * |clip|];
    forall j | 0 <= j < |clip|
      ensures clip[j] == FromLeAll(body)[j]
    {
      FromLeAllAt(body, j);
      assert body[4 * j..4 * j + 4] == s[4 * j..4 * j + 4];
    }
  }

  lemma ReadManyStep(done: seq<Clip>, buf: seq<Byte>, n: nat)
    requires n > 0
    ensures Continue(done, buf, n) ==
              match ReadOne(buf)
              case None => None
              case Some((clip, rest)) => Continue(done + [clip], rest, n - 1)
  {
    match ReadOne(buf)
    case None =>
    case Some((clip, rest)) =>
      if ReadMany(rest, n - 1).Some? {
        assert done + ([clip] + ReadMany(rest, n - 1).value.0) == done + [clip] + ReadMany(rest, n - 1).value.0;
      }
  }

  function Continue(done: seq<Clip>, buf: seq<Byte>, n: nat): Option<(seq<Clip>, seq<Byte>)> {
    match ReadMany(buf, n)
    case None => None
    case Some((clips, tail)) => Some((done + clips, tail))
  }

  method ReadRecord(buf: seq<Byte>, at: nat) returns (r: Option<Clip>, off: nat)
    requires at <= |buf|
    ensures off <= |buf|
    ensures ReadOne(buf[at..]) == if r.None? then None else Some((r.value, buf[off..]))
  {
    off := at;
    var len := WordAt(buf, off);
    if len.None? { return None, off; }
    assert buf[off..][..4] == buf[off..off + 4] && buf[off..][4..] == buf[off + 4..];
    off := off + 4;
    var n: nat := len.value;
    r := ReadSamples(buf, off, n);
    if r.None? { return; }
    assert buf[off..][4 * n..] == buf[off + 4 * n..];
    off := off + n * 4;
  }

  method LoadClips(buf: seq<Byte>) returns (r: Option<(seq<Clip>, nat)>)
    ensures r == Load(buf)
  {
    var count := WordAt(buf, 0);
    if count.None? { return None; }
    assert buf[0..4] == buf[..4];
    var n: nat, off: nat := count.value, 4;
    var out: seq<Clip> := [];
    ContinueFromStart(buf[4..], n);
    for i := 0 to n
      invariant off <= |buf|
      invariant Continue(out, buf[off..], n - i) == ReadMany(buf[4..], n)
    {
      ReadManyStep(out, buf[off..], n - i);
      var clip;
      clip, off := ReadRecord(buf, off);
      if clip.None? { return None; }
      out := out + [clip.value];
    }
    assert out + [] == out;
    return Some((out, off));
  }

  lemma ContinueFromStart(buf: seq<Byte>, n: nat)
    ensures Continue([], buf, n) == ReadMany(buf, n)
  {
    if ReadMany(buf, n).Some? {
      assert [] + ReadMany(buf, n).value.0 == ReadMany(buf, n).value.0;
    }
  }
}
