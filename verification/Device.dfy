/** The standard-stream device, and line input on top of it. */
module Device {
  import opened Bytes

  /** The index of the first newline, or the length if there is none. */
  function LineEnd(s: string): (e: nat)
    ensures e <= |s| && (e < |s| ==> s[e] == '\n') && forall i :: 0 <= i < e ==> s[i] != '\n'
  {
    if s == [] || s[0] == '\n' then 0 else 1 + LineEnd(s[1..])
  }

  lemma {:induction false} LineEndDrop(s: string, n: nat)
    requires n <= LineEnd(s)
    ensures LineEnd(s[n..]) == LineEnd(s) - n
  {
  }

  /** The first `len` characters of an input; once it runs out, its last character over and over,
    as a failed extraction leaves the variable it would read into alone. */
  function Padded(s: string, len: nat): string {
    if |s| >= len then s[..len]
    else s + seq(len - |s|, _ => if s == [] then '\0' else s[|s| - 1])
  }

  /** What `ReadData` takes: up to `len` characters, ending behind a newline. */
  function Taken(s: string, len: nat): string {
    var e := LineEnd(s);
    if e < Min(|s|, len) then s[..e + 1] else Padded(s, len)
  }

  lemma PaddedStep(s: string, i: nat)
    ensures |Padded(s, i)| == i && Padded(s, 0) == ""
    ensures Padded(s, i + 1) ==
      Padded(s, i) + [if i < |s| then s[i] else if i == 0 then '\0' else Padded(s, i)[i - 1]]
  {
  }

  lemma LineEndStep(s: string, i: nat)
    requires i <= LineEnd(s) && i < |s|
    ensures s[i] == '\n' <==> LineEnd(s) == i
  {
  }

  /** A read stops behind the newline, or after `len` characters without one. */
  lemma TakenAfter(s: string, len: nat, i: nat)
    requires i <= len
    requires if i > 0 && LineEnd(s) == i - 1 < |s| then true else i == len && LineEnd(s) >= Min(i, |s|)
    ensures Taken(s, len) == Padded(s, i)
  {
    hide LineEnd;
  }

  /** What a read takes, character by character: those of the input, and past its end the last one again
    (a null character if there was none), up to the limit or, sooner, to the first newline. */
  predicate IsRead(s: string, len: nat, chunk: string) {
    && |chunk| <= len
    && (forall i :: 0 <= i < |chunk| ==> chunk[i] == if i < |s| then s[i] else if s == [] then '\0' else s[|s| - 1])
    && (forall i :: 0 <= i < |chunk| - 1 ==> chunk[i] != '\n')
    && (|chunk| < len ==> chunk != [] && chunk[|chunk| - 1] == '\n')
  }

  lemma TakenIsRead(s: string, len: nat)
    ensures IsRead(s, len, Taken(s, len))
  {
    hide LineEnd;
  }

  lemma SameLength(s: string, len: nat, a: string, b: string)
    requires IsRead(s, len, a) && IsRead(s, len, b)
    ensures |a| == |b|
  {
  }

  /** There is one such chunk for each input and limit, and a read takes it. */
  lemma TakenIff(s: string, len: nat, chunk: string)
    ensures chunk == Taken(s, len) <==> IsRead(s, len, chunk)
  {
    hide Taken;
    TakenIsRead(s, len);
    if IsRead(s, len, chunk) {
      SameLength(s, len, chunk, Taken(s, len));
    }
  }

  class StdStreamIODevice {
    /** The characters still to come, and whether the stream is still good. */
    var input: string
    var good: bool
    /** The lines written. */
    var output: seq<string>

    constructor (input: string)
      ensures this.input == input && good && output == []
    {
      this.input := input;
      good := true;
      output := [];
    }

    /** Read up to `len` characters, or up to and including a newline. None is the exception of a
      stream that is not good. */
    method ReadData(len: nat) returns (chunk: Option<string>)
      modifies this
      ensures output == old(output)
      ensures !old(good) ==> chunk == None && input == old(input) && !good
      ensures old(good) ==>
        && chunk == Some(Taken(old(input), len))
        && input == old(input)[Min(|Taken(old(input), len)|, |old(input)|)..]
        && (good <==> |Taken(old(input), len)| <= |old(input)|)
    {
      if !good {
        return None;
      }
      hide Padded, LineEnd, Taken;
      ghost var all := input;
      PaddedStep(all, 0);
      var data := "";
      var ch := '\0';
      var i := 0;
      while i < len && ch != '\n'
        invariant i <= len && output == old(output)
        invariant data == Padded(all, i) && |data| == i
        invariant input == all[Min(i, |all|)..]
        invariant good <==> i <= |all|
        invariant ch == if i == 0 then '\0' else data[i - 1]
        invariant ch == '\n' ==> i > 0 && LineEnd(all) == i - 1 < |all|
        invariant ch != '\n' ==> LineEnd(all) >= Min(i, |all|)
      {
        PaddedStep(all, i);
        if input != [] {
          LineEndStep(all, i);
          ch := input[0];
          input := input[1..];
        } else {
          good := false;
        }
        data := data + [ch];
        i := i + 1;
      }
      TakenAfter(all, len, i);
      return Some(data);
    }

    method WriteData(buff: string)
      modifies `output
      ensures output == old(output) + [buff]
    {
      output := output + [buff];
    }

    /** Discard characters up to and including a newline. */
    method IgnoreTillNewline()
      modifies this
      ensures output == old(output)
      ensures !old(good) ==> input == old(input) && !good
      ensures old(good) ==> var e := LineEnd(old(input));
        && (good <==> e < |old(input)|)
        && input == if good then old(input)[e + 1..] else []
    {
      if good {
        ghost var all := input;
        while input != [] && input[0] != '\n'
          invariant output == old(output) && good
          invariant |input| <= |all| && input == all[|all| - |input|..]
          invariant LineEnd(all) == |all| - |input| + LineEnd(input)
        {
          input := input[1..];
        }
        if input == [] {
          good := false;
        } else {
          input := input[1..];
        }
      }
    }

    /** Read a line: at most `len` characters of it, the rest and the newline discarded. */
    method ReadLineFromStream(len: nat) returns (line: Option<string>)
      requires len >= 1
      modifies this
      ensures output == old(output)
      ensures (line, Feed()) == NextLine(old(Feed()), len)
    {
      hide FeedOf, NextLine, LineEnd, Taken, Padded;
      ghost var all, next := input, NextLine(Feed(), len);
      var chunk := ReadData(len);
      if chunk == None {
        FeedBad(input);
        return None;
      }
      LineTaken(all, len);
      var data := chunk.value;
      if data[|data| - 1] == '\n' {
        line := Some(data[..|data| - 1]);
        assert good;
      } else {
        line := chunk;
        IgnoreTillNewline();
        FeedBad(input);
      }
      assert Feed() == next.1;
      assert line == next.0;
    }

    /** The input as lines. */
    ghost function Feed(): Lines
      reads `input, `good
    {
      FeedOf(input, good)
    }
  }

  // ---- Input as lines ----

  /** Complete lines, then the characters behind the last newline. */
  datatype Lines = Lines(lines: seq<string>, tail: string, good: bool)

  function FeedOf(input: string, good: bool): Lines
    decreases |input|
  {
    var e := LineEnd(input);
    if !good then Lines([], "", false)
    else if e < |input| then
      var f := FeedOf(input[e + 1..], true);
      Lines([input[..e]] + f.lines, f.tail, f.good)
    else Lines([], input, true)
  }

  function LinesLeft(f: Lines): nat {
    if f.good then |f.lines| + 1 else 0
  }

  /** The next line cut to `limit`, and what follows. An input that has ended without a newline gives
    one last line, padded to the limit; after that reading fails. */
  function NextLine(f: Lines, limit: nat): (r: (Option<string>, Lines))
    ensures r.0 == None <==> !f.good
    ensures if f.good then LinesLeft(r.1) < LinesLeft(f) else r.1 == f
  {
    if !f.good then (None, f)
    else if f.lines != [] then (Some(f.lines[0][..Min(limit, |f.lines[0]|)]), Lines(f.lines[1..], f.tail, true))
    else (Some(Padded(f.tail, limit)), Lines([], "", false))
  }

  lemma {:induction false} FeedGood(s: string)
    ensures FeedOf(s, true).good
    decreases |s|
  {
    if LineEnd(s) == |s| {
    } else {
      FeedGood(s[LineEnd(s) + 1..]);
    }
  }

  lemma FeedStep(s: string, len: nat)
    ensures var e := LineEnd(s);
      e < |s| ==> NextLine(FeedOf(s, true), len) == (Some(s[..Min(len, e)]), FeedOf(s[e + 1..], true))
    ensures LineEnd(s) == |s| ==> NextLine(FeedOf(s, true), len) == (Some(Padded(s, len)), FeedOf("", false))
  {
    hide FeedOf, LineEnd, Padded;
    var e := LineEnd(s);
    if e < |s| {
      var f := FeedOf(s[e + 1..], true);
      FeedGood(s[e + 1..]);
      FeedCons(s, e, f);
      assert ([s[..e]] + f.lines)[1..] == f.lines;
      assert s[..e][..Min(len, e)] == s[..Min(len, e)];
    } else {
      FeedTail(s);
    }
  }

  lemma FeedTail(s: string)
    requires LineEnd(s) == |s|
    ensures FeedOf(s, true) == Lines([], s, true) && FeedOf("", false) == Lines([], "", false)
  {
    hide LineEnd;
  }

  lemma FeedCons(s: string, e: nat, f: Lines)
    requires e == LineEnd(s) < |s| && f == FeedOf(s[e + 1..], true)
    ensures FeedOf(s, true) == Lines([s[..e]] + f.lines, f.tail, f.good)
  {
    hide LineEnd;
  }

  lemma FeedBad(s: string)
    ensures FeedOf(s, false) == FeedOf("", false) && !FeedOf(s, false).good
  {
  }

  /** What a read of a line takes, seen as lines: the chunk ends in a newline exactly if it holds the
    whole line, and then nothing is left of the line to discard. */
  lemma LineTaken(s: string, len: nat)
    requires len >= 1
    ensures var chunk, e, next := Taken(s, len), LineEnd(s), NextLine(FeedOf(s, true), len);
      && |chunk| >= 1
      && (chunk[|chunk| - 1] == '\n' ==>
        |chunk| == e + 1 <= |s| && next == (Some(chunk[..e]), FeedOf(s[e + 1..], true)))
      && (chunk[|chunk| - 1] != '\n' ==>
        && next == (Some(chunk), if e < |s| then FeedOf(s[e + 1..], true) else FeedOf("", false))
        && (|chunk| <= |s| ==> |chunk| <= e && LineEnd(s[|chunk|..]) == e - |chunk|)
        && (|chunk| > |s| ==> e == |s|))
  {
    FeedStep(s, len);
    hide FeedOf, NextLine;
    var chunk, e := Taken(s, len), LineEnd(s);
    if e < Min(|s|, len) {
      assert chunk[..e] == s[..e];
    } else if |s| >= len {
      LineEndDrop(s, len);
    }
  }

  /** Reading lines one after the other, each with its own limit. */
  function ReadLines(f: Lines, limits: seq<nat>): seq<Option<string>>
    decreases |limits|
  {
    if limits == [] then []
    else
      var (line, f') := NextLine(f, limits[0]);
      [line] + ReadLines(f', limits[1..])
  }

  /** The i-th read gets the i-th line, however long the lines before it were and however much of
    them was wanted. */
  lemma {:induction false} LineDiscipline(f: Lines, limits: seq<nat>, i: nat)
    requires f.good && i < |limits| && i < |f.lines|
    ensures |ReadLines(f, limits)| > i
    ensures ReadLines(f, limits)[i] == Some(f.lines[i][..Min(limits[i], |f.lines[i]|)])
    decreases i
  {
    if i == 0 {
    } else {
      LineDiscipline(Lines(f.lines[1..], f.tail, true), limits[1..], i - 1);
    }
  }

  /** Behind the last newline there is one more line, which is padded to its limit with its last character,
    and then nothing. */
  lemma {:induction false} LastLine(f: Lines, limits: seq<nat>, i: nat)
    requires f.good && |f.lines| <= i < |limits|
    ensures |ReadLines(f, limits)| > i
    ensures var line, limit := ReadLines(f, limits)[i], limits[i];
      if i == |f.lines| then
        && line.Some? && |line.value| == limit
        && forall k :: 0 <= k < limit ==>
          line.value[k] == if k < |f.tail| then f.tail[k] else if f.tail == "" then '\0' else f.tail[|f.tail| - 1]
      else line == None
    decreases |f.lines|
  {
    if f.lines == [] {
      NothingMore(limits[1..], i);
    } else {
      LastLine(Lines(f.lines[1..], f.tail, true), limits[1..], i - 1);
    }
  }

  lemma {:induction false} NothingMore(limits: seq<nat>, i: nat)
    ensures |ReadLines(Lines([], "", false), limits)| == |limits|
    ensures 0 < i <= |limits| ==> ReadLines(Lines([], "", false), limits)[i - 1] == None
    decreases |limits|
  {
    if limits == [] {
    } else {
      NothingMore(limits[1..], if i == 0 then 0 else i - 1);
    }
  }

  /** The text of complete lines. */
  function Text(lines: seq<string>): string {
    if lines == [] then "" else lines[0] + "\n" + Text(lines[1..])
  }

  /** The lines of an input are its text cut at the newlines. */
  lemma {:induction false} LinesOfText(lines: seq<string>, tail: string)
    requires '\n' !in tail && forall l <- lines :: '\n' !in l
    ensures FeedOf(Text(lines) + tail, true) == Lines(lines, tail, true)
  {
    hide LineEnd, FeedOf;
    var input := Text(lines) + tail;
    if lines == [] {
      assert input == tail;
      FeedTail(tail);
    } else {
      var l, rest := lines[0], Text(lines[1..]) + tail;
      assert input == l + ("\n" + rest);
      LineEndAt(l, "\n" + rest);
      assert input[..|l|] == l && input[|l| + 1..] == rest;
      LinesOfText(lines[1..], tail);
      FeedCons(input, |l|, FeedOf(rest, true));
    }
  }

  lemma {:induction false} LineEndAt(l: string, rest: string)
    requires '\n' !in l && rest != [] && rest[0] == '\n'
    ensures LineEnd(l + rest) == |l|
  {
    if l == [] {
      assert l + rest == rest;
    } else {
      assert l[0] in l && forall c <- l[1..] :: c in l;
      assert (l + rest)[1..] == l[1..] + rest;
      LineEndAt(l[1..], rest);
    }
  }
}
