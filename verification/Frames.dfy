/** The package format of the query server: an eight-byte header (payload size, then flags, both in
  network byte order) followed by the payload. A reply is a sequence of packages of which only the
  last one lacks the MSG_CONT flag. */
module Frames {
  import opened Bytes

  const HEADER_SIZE: nat := 8
  const MAXIMUM_PACKAGE_BUFFER_SIZE: nat := 1024
  const PROTOCOL_PROTOBUF: U32 := 1
  const MSG_CONT: U32 := 2

  /** `flags & MSG_CONT`, with MSG_CONT the second-lowest bit. */
  predicate HasCont(flags: U32) {
    flags / MSG_CONT % 2 == 1
  }

  /** The flag that is tested has the number 2: it is the second-lowest bit. */
  lemma HasContIff(flags: U32)
    ensures HasCont(flags) <==> flags % 4 == 2 || flags % 4 == 3
  {
  }

  datatype Frame = Frame(flags: U32, payload: Buf)

  predicate Fits(f: Frame) {
    |f.payload| < WORD
  }

  ghost predicate AllFit(fs: seq<Frame>) {
    forall f <- fs :: Fits(f)
  }

  // ---- Header words ----

  function HToNl(x: U32): (b: Buf)
    ensures |b| == 4
  {
    [x / 0x100_0000, x / 0x1_0000 % 0x100, x / 0x100 % 0x100, x % 0x100]
  }

  function NToHl(b: Buf): U32
    requires |b| == 4
  {
    b[0] as int * 0x100_0000 + b[1] as int * 0x1_0000 + b[2] as int * 0x100 + b[3]
  }

  lemma ShiftTwice(x: nat)
    ensures x / 0x100 / 0x100 == x / 0x1_0000
  {
  }

  lemma ShiftThrice(x: nat)
    ensures x / 0x1_0000 / 0x100 == x / 0x100_0000
  {
  }

  lemma LowByte(x: nat)
    ensures x == x / 0x100 * 0x100 + x % 0x100
  {
  }

  lemma HostOfNetwork(x: U32)
    ensures NToHl(HToNl(x)) == x
  {
    LowByte(x);
    LowByte(x / 0x100);
    LowByte(x / 0x1_0000);
    ShiftTwice(x);
    ShiftThrice(x);
  }

  lemma Shifted(high: nat, low: nat)
    requires low < 0x100
    ensures (high * 0x100 + low) / 0x100 == high && (high * 0x100 + low) % 0x100 == low
  {
  }

  lemma NetworkOfHost(b: Buf)
    requires |b| == 4
    ensures HToNl(NToHl(b)) == b
  {
    var n, two := NToHl(b), b[0] as int * 0x100 + b[1];
    Shifted(b[0], b[1]);
    Shifted(two, b[2]);
    Shifted(two * 0x100 + b[2], b[3]);
    ShiftTwice(n);
    ShiftThrice(n);
  }

  /** Network order: the first byte counts most. */
  lemma NetworkValue(x: U32, b: Buf)
    requires |b| == 4
    ensures HToNl(x) == b <==> x == b[0] as int * 0x100_0000 + b[1] as int * 0x1_0000 + b[2] as int * 0x100 + b[3]
  {
    hide HToNl;
    HostOfNetwork(x);
    NetworkOfHost(b);
  }

  /** The first difference of two words of bytes is at `k`, and the first word is lower there. */
  predicate LowerAt(a: Buf, b: Buf, k: nat)
    requires k < |a| && k < |b|
  {
    a[..k] == b[..k] && a[k] < b[k]
  }

  /** The order of header words, byte by byte, is the order of the numbers. */
  lemma ByteOrder(x: U32, y: U32)
    ensures x < y <==> exists k :: 0 <= k < 4 && LowerAt(HToNl(x), HToNl(y), k)
  {
    if x < y {
      var k := FirstLower(x, y);
    } else if y < x {
      var k := FirstLower(y, x);
      forall j | 0 <= j < 4 ensures !LowerAt(HToNl(x), HToNl(y), j) {
        NotBoth(HToNl(x), HToNl(y), j, k);
      }
    }
  }

  lemma NotBoth(a: Buf, b: Buf, j: nat, k: nat)
    requires j < |a| == |b| && k < |a| && LowerAt(b, a, k)
    ensures !LowerAt(a, b, j)
  {
    assert j < k ==> b[..k][j] == a[..k][j];
  }

  lemma FirstLower(x: U32, y: U32) returns (k: nat)
    requires x < y
    ensures k < 4 && LowerAt(HToNl(x), HToNl(y), k)
  {
    var a, b := HToNl(x), HToNl(y);
    HostOfNetwork(x);
    HostOfNetwork(y);
    hide HToNl;
    k := if a[0] != b[0] then 0 else if a[1] != b[1] then 1 else if a[2] != b[2] then 2 else 3;
    assert a[..k] == b[..k];
  }

  // ---- One frame ----

  function Encode(f: Frame): (b: Buf)
    requires Fits(f)
    ensures |b| == HEADER_SIZE + |f.payload|
  {
    HToNl(|f.payload|) + HToNl(f.flags) + f.payload
  }

  /** The frame at the front of `b` and the bytes behind it, once all of the frame is there. */
  function Decode(b: Buf): (r: Option<(Frame, Buf)>)
    ensures r.Some? ==> Fits(r.value.0) && |r.value.1| + HEADER_SIZE <= |b|
  {
    if |b| < HEADER_SIZE then None
    else
      var size := NToHl(b[..4]);
      if |b| < HEADER_SIZE + size then None
      else Some((Frame(NToHl(b[4..8]), b[8..8 + size]), b[8 + size..]))
  }

  lemma DecodeEncode(f: Frame, rest: Buf)
    requires Fits(f)
    ensures Decode(Encode(f) + rest) == Some((f, rest))
  {
    var b := Encode(f) + rest;
    assert b[..4] == HToNl(|f.payload|) && b[4..8] == HToNl(f.flags);
    HostOfNetwork(|f.payload|);
    HostOfNetwork(f.flags);
    assert b[8..8 + |f.payload|] == f.payload && b[8 + |f.payload|..] == rest;
  }

  /** Decoding accepts nothing but encodings. */
  lemma EncodeDecode(b: Buf)
    ensures Decode(b).Some? ==> var (f, rest) := Decode(b).value; b == Encode(f) + rest
  {
    if Decode(b).Some? {
      NetworkOfHost(b[..4]);
      NetworkOfHost(b[4..8]);
      var (f, rest) := Decode(b).value;
      assert b == b[..4] + b[4..8] + b[8..8 + |f.payload|] + b[8 + |f.payload|..];
    }
  }

  /** What is read as a package: the size and the flags of the header with their highest bytes first, then
    that many bytes; none exactly if bytes are missing. */
  lemma ReadHeader(b: Buf)
    ensures |b| < 8 ==> Decode(b) == None
    ensures |b| >= 8 ==>
      var size := b[0] as int * 0x100_0000 + b[1] as int * 0x1_0000 + b[2] as int * 0x100 + b[3];
      var flags := b[4] as int * 0x100_0000 + b[5] as int * 0x1_0000 + b[6] as int * 0x100 + b[7];
      if |b| < 8 + size then Decode(b) == None
      else
        && Decode(b).Some?
        && Decode(b).value.0.flags == flags
        && Decode(b).value.0.payload == b[8..8 + size]
        && Decode(b).value.1 == b[8 + size..]
  {
    if |b| >= 8 {
      NetworkValue(NToHl(b[..4]), b[..4]);
      NetworkValue(NToHl(b[4..8]), b[4..8]);
      NetworkOfHost(b[..4]);
      NetworkOfHost(b[4..8]);
    }
  }

  lemma DecodeMore(b: Buf, x: Buf)
    ensures Decode(b).Some? ==> Decode(b + x) == Some((Decode(b).value.0, Decode(b).value.1 + x))
  {
    if Decode(b).Some? {
      EncodeDecode(b);
      var (f, rest) := Decode(b).value;
      assert b + x == Encode(f) + (rest + x);
      DecodeEncode(f, rest + x);
    }
  }

  // ---- Frame streams ----

  function Stream(fs: seq<Frame>): Buf
    requires AllFit(fs)
  {
    if fs == [] then [] else Encode(fs[0]) + Stream(fs[1..])
  }

  lemma StreamCons(f: Frame, fs: seq<Frame>)
    requires Fits(f) && AllFit(fs)
    ensures AllFit([f] + fs) && Stream([f] + fs) == Encode(f) + Stream(fs)
  {
  }

  /** Only the last frame lacks MSG_CONT. */
  predicate Terminated(fs: seq<Frame>) {
    && fs != []
    && forall i :: 0 <= i < |fs| ==> (HasCont(fs[i].flags) <==> i < |fs| - 1)
  }

  datatype Parsed = Parsed(frames: seq<Frame>, done: bool, rest: Buf)

  /** Everything a receiver that stops at the first frame without MSG_CONT can take from `b`. */
  function ParseStream(b: Buf): (p: Parsed)
    ensures p.done ==> p.frames != []
    decreases |b|
  {
    match Decode(b)
    case None => Parsed([], false, b)
    case Some((f, rest)) =>
      if HasCont(f.flags) then
        var p := ParseStream(rest);
        Parsed([f] + p.frames, p.done, p.rest)
      else Parsed([f], true, rest)
  }

  lemma {:induction false} ParseTerminated(fs: seq<Frame>, rest: Buf)
    requires AllFit(fs) && Terminated(fs)
    ensures ParseStream(Stream(fs) + rest) == Parsed(fs, true, rest)
  {
    hide Decode, Encode;
    assert Stream(fs) + rest == Encode(fs[0]) + (Stream(fs[1..]) + rest);
    DecodeEncode(fs[0], Stream(fs[1..]) + rest);
    if |fs| == 1 {
      assert Stream(fs[1..]) + rest == rest;
    } else {
      ParseTerminated(fs[1..], rest);
    }
  }

  /** Frame streams are self-delimiting: two terminated streams at the front of the same bytes are
    the same frames, followed by the same bytes. */
  lemma UniquelyDecodable(a: seq<Frame>, x: Buf, b: seq<Frame>, y: Buf)
    requires AllFit(a) && Terminated(a) && AllFit(b) && Terminated(b)
    requires Stream(a) + x == Stream(b) + y
    ensures a == b && x == y
  {
    ParseTerminated(a, x);
    ParseTerminated(b, y);
  }

  /** What is parsed from the bytes so far is never revised by later bytes. */
  lemma {:induction false} ParseMonotone(b: Buf, x: Buf)
    ensures ParseStream(b).frames <= ParseStream(b + x).frames
    ensures ParseStream(b).done ==>
      ParseStream(b + x) == Parsed(ParseStream(b).frames, true, ParseStream(b).rest + x)
    decreases |b|
  {
    DecodeMore(b, x);
    match Decode(b)
    case None =>
    case Some((f, rest)) =>
      if HasCont(f.flags) {
        ParseMonotone(rest, x);
      }
  }

  /** What was parsed behind other frames. */
  function Behind(frames: seq<Frame>, p: Parsed): Parsed {
    Parsed(frames + p.frames, p.done, p.rest)
  }

  /** A receiver that has to wait goes on with the bytes it could not yet use. */
  lemma {:induction false} ParseResumes(b: Buf, x: Buf)
    requires !ParseStream(b).done
    ensures ParseStream(b + x) == Behind(ParseStream(b).frames, ParseStream(ParseStream(b).rest + x))
    decreases |b|
  {
    hide Decode, HasCont;
    DecodeMore(b, x);
    match Decode(b)
    case None =>
    case Some((f, rest)) =>
      ParseResumes(rest, x);
      Associative([f], ParseStream(rest).frames, ParseStream(ParseStream(rest).rest + x).frames);
  }

  /** A connection cut anywhere inside a terminated stream yields whole frames only, a proper prefix
    of those sent, and is never mistaken for the end of the reply. */
  lemma {:induction false} CutStream(fs: seq<Frame>, seen: Buf, lost: Buf)
    requires AllFit(fs) && Terminated(fs)
    requires seen + lost == Stream(fs) && lost != []
    ensures !ParseStream(seen).done && ParseStream(seen).frames < fs
  {
    hide ParseStream, Encode, Decode;
    ParseMonotone(seen, lost);
    assert Stream(fs) + [] == Stream(fs);
    ParseTerminated(fs, []);
    var p := ParseStream(seen);
    ParsedAll(seen);
    ParsedEnd(seen);
    assert |p.rest + lost| > 0 && |seen| < |Stream(fs)|;
    assert |seen| == |Stream(p.frames)| + |p.rest|;
  }

  lemma {:induction false} ParsedAll(b: Buf)
    ensures AllFit(ParseStream(b).frames)
    ensures b == Stream(ParseStream(b).frames) + ParseStream(b).rest
    decreases |b|
  {
    hide Decode, Encode;
    EncodeDecode(b);
    match Decode(b)
    case None =>
    case Some((f, rest)) =>
      if HasCont(f.flags) {
        ParsedAll(rest);
        var p := ParseStream(rest);
        StreamCons(f, p.frames);
        assert Encode(f) + (Stream(p.frames) + p.rest) == Stream([f] + p.frames) + p.rest;
      } else {
        assert [f] == [f] + [];
        StreamCons(f, []);
      }
  }

  lemma {:induction false} ParsedEnd(b: Buf)
    ensures ParseStream(b).done <==> Terminated(ParseStream(b).frames)
    decreases |b|
  {
    match Decode(b)
    case None =>
    case Some((f, rest)) =>
      if HasCont(f.flags) {
        ParsedEnd(rest);
        var p := ParseStream(rest);
        var all := [f] + p.frames;
        assert all[1..] == p.frames;
        TerminatedTail(all);
      }
  }

  lemma TerminatedTail(fs: seq<Frame>)
    requires |fs| > 0 && HasCont(fs[0].flags)
    ensures Terminated(fs) <==> Terminated(fs[1..])
  {
  }

  // ---- Cutting a package into send calls ----

  function Chunks(b: Buf, max: nat): seq<Buf>
    requires max > 0
  {
    if b == [] then [] else [b[..Min(|b|, max)]] + Chunks(b[Min(|b|, max)..], max)
  }

  lemma ChunksEnd(max: nat)
    requires max > 0
    ensures Chunks([], max) == []
  {
  }

  lemma ChunksStep(b: Buf, from: nat, n: nat, max: nat)
    requires max > 0 && from < |b| && n == Min(|b| - from, max)
    ensures Chunks(b[from..], max) == [b[from..from + n]] + Chunks(b[from + n..], max)
  {
    assert b[from..][..n] == b[from..from + n] && b[from..][n..] == b[from + n..];
  }

  lemma ConcatStep<T>(ss: seq<seq<T>>)
    ensures Concat(ss) == if ss == [] then [] else ss[0] + Concat(ss[1..])
  {
  }

  lemma {:induction false} ChunksJoin(b: Buf, max: nat)
    requires max > 0
    ensures Concat(Chunks(b, max)) == b
  {
    hide Concat;
    ConcatStep(Chunks(b, max));
    if b == [] {
    } else {
      var n := Min(|b|, max);
      ChunksJoin(b[n..], max);
      assert Chunks(b, max)[1..] == Chunks(b[n..], max);
    }
  }

  /** ceil(n / max) sends, every one full but possibly the last, and together the whole buffer. */
  lemma {:induction false} ChunksShape(b: Buf, max: nat)
    requires max > 0
    ensures Concat(Chunks(b, max)) == b
    ensures |Chunks(b, max)| == (|b| + max - 1) / max
    ensures forall i :: 0 <= i < |Chunks(b, max)| - 1 ==> |Chunks(b, max)[i]| == max
    ensures forall c <- Chunks(b, max) :: 0 < |c| <= max
  {
    hide Concat;
    ChunksJoin(b, max);
    if |b| > max {
      ChunksShape(b[max..], max);
      CeilStep(|b|, max);
    } else {
      assert b != [] ==> Chunks(b[|b|..], max) == [];
      CeilSmall(|b|, max);
    }
  }

  /** What goes out for a frame, in sends of at most 1024 bytes: the size and the flags, each with its
    highest byte first, and then the payload. */
  lemma SentHeader(f: Frame)
    requires Fits(f)
    ensures var sends := Chunks(Encode(f), MAXIMUM_PACKAGE_BUFFER_SIZE);
      var b := Concat(sends);
      && |b| == 8 + |f.payload|
      && |f.payload| == b[0] as int * 0x100_0000 + b[1] as int * 0x1_0000 + b[2] as int * 0x100 + b[3]
      && f.flags == b[4] as int * 0x100_0000 + b[5] as int * 0x1_0000 + b[6] as int * 0x100 + b[7]
      && b[8..] == f.payload
      && forall c <- sends :: |c| <= 1024
  {
    hide HToNl, Chunks;
    var b := Encode(f);
    ChunksShape(b, MAXIMUM_PACKAGE_BUFFER_SIZE);
    assert b[..4] == HToNl(|f.payload|) && b[4..8] == HToNl(f.flags);
    NetworkValue(|f.payload|, b[..4]);
    NetworkValue(f.flags, b[4..8]);
  }

  lemma CeilStep(n: nat, max: nat)
    requires 0 < max <= n
    ensures (n + max - 1) / max == 1 + (n - max + max - 1) / max
  {
    var q := (n - 1) / max;
    var r := (n - 1) % max;
    assert n - 1 == q * max + r;
    assert n - 1 + max == (q + 1) * max + r;
    QuotientUnique(n - 1 + max, max, q + 1, r);
  }

  lemma CeilSmall(n: nat, max: nat)
    requires 0 < max && n <= max
    ensures (n + max - 1) / max == if n == 0 then 0 else 1
  {
  }

  lemma QuotientUnique(n: int, d: int, q: int, r: int)
    requires d > 0 && 0 <= r < d && n == q * d + r
    ensures n / d == q
  {
    var k := n / d - q;
    assert n == (q + k) * d + n % d;
    assert k * d == r - n % d;
    assert k > 0 ==> (k - 1) * d >= 0;
    assert k < 0 ==> (-k - 1) * d >= 0;
  }

  /** The send calls that put `fs` on the wire. */
  function Wire(fs: seq<Frame>, max: nat): seq<Buf>
    requires AllFit(fs) && max > 0
  {
    if fs == [] then [] else Chunks(Encode(fs[0]), max) + Wire(fs[1..], max)
  }

  lemma {:induction false} WireIsStream(fs: seq<Frame>, max: nat)
    requires AllFit(fs) && max > 0
    ensures Concat(Wire(fs, max)) == Stream(fs)
  {
    if fs == [] {
    } else {
      ChunksShape(Encode(fs[0]), max);
      WireIsStream(fs[1..], max);
      ConcatAppend(Chunks(Encode(fs[0]), max), Wire(fs[1..], max));
    }
  }
}
