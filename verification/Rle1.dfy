/** The first run-length layer: four equal bytes are followed by a count of up to 255 more. */
module Rle1 {
  import opened Bits

  /** How many of the first `limit` bytes equal the first one. */
  function RunLength(s: seq<byte>, limit: nat): (r: nat)
    requires |s| > 0 && limit > 0
    ensures 1 <= r <= limit && r <= |s|
    ensures forall k :: 0 <= k < r ==> s[k] == s[0]
    ensures r < limit && r < |s| ==> s[r] != s[0]
    decreases limit, s
  {
    if limit == 1 || |s| == 1 || s[1] != s[0] then 1 else 1 + RunLength(s[1..], limit - 1)
  }

  function RunCode(c: byte, run: nat): (r: seq<byte>)
    requires 1 <= run <= 259
  {
    if run >= 4 then [c, c, c, c, run - 4] else Repeat(c, run)
  }

  /** What the encoder emits. */
  function Encode(s: seq<byte>): seq<byte>
  {
    if |s| == 0 then [] else
      var run := RunLength(s, 259);
      RunCode(s[0], run) + Encode(s[run..])
  }

  /** What the decoder makes of the bytes it walks over: `ch` is the last byte and `cnt` how often it stood
      in a row. A run of four at the very end has no count byte and is an error. */
  function Decode(w: seq<byte>, ch: byte, cnt: nat): Option<seq<byte>>
    requires cnt < 4
    decreases |w|
  {
    if |w| == 0 then Some([])
    else if w[0] != ch then Prepend([w[0]], Decode(w[1..], w[0], 1))
    else if cnt < 3 then Prepend([ch], Decode(w[1..], ch, cnt + 1))
    else if |w| == 1 then None
    else Prepend([ch] + Repeat(ch, w[1]), Decode(w[2..], ch, 0))
  }

  function Prepend(p: seq<byte>, r: Option<seq<byte>>): Option<seq<byte>> {
    match r case None => None case Some(t) => Some(p + t)
  }

  // ---------- the encoder's loop ----------

  method ScanRun(src: seq<byte>, i: nat) returns (run: nat)
    requires i < |src|
    ensures run == RunLength(src[i..], 259)
  {
    var c := src[i];
    run := 1;
    while i + run < |src| && run < 255 + 4 && src[i + run] == c
      invariant 1 <= run <= 259 && i + run <= |src|
      invariant forall k :: i <= k < i + run ==> src[k] == c
    {
      run := run + 1;
    }
    RunLengthIs(src[i..], run);
  }

  method EmitRun(out: seq<byte>, c: byte, run: nat) returns (out': seq<byte>)
    requires 1 <= run <= 259
    ensures out' == out + RunCode(c, run)
  {
    out' := out;
    if run >= 4 {
      out' := out' + [c] + [c];
      out' := out' + [c] + [c];
      out' := out' + [run - 4];
    } else {
      for k := 0 to run
        invariant out' == out + Repeat(c, k)
      {
        out' := out' + [c];
      }
    }
  }

  /** Moving one run from the input to the output leaves their join unchanged. */
  lemma EncodeStep(out: seq<byte>, src: seq<byte>, i: nat, run: nat)
    requires i < |src| && run == RunLength(src[i..], 259)
    ensures out + Encode(src[i..]) == (out + RunCode(src[i], run)) + Encode(src[i + run..])
  {
    hide RunCode, RunLength;
    assert src[i..][run..] == src[i + run..];
    Assoc(out, RunCode(src[i], run), Encode(src[i + run..]));
  }

  method EncodeBlock(src: seq<byte>) returns (out: seq<byte>)
    ensures out == Encode(src)
  {
    hide *;
    out := [];
    var i := 0;
    assert src[0..] == src;
    assert out + Encode(src) == Encode(src);
    NothingLeft();
    while i < |src|
      invariant 0 <= i <= |src|
      invariant Encode(src) == out + Encode(src[i..])
    {
      var run := ScanRun(src, i);
      EncodeStep(out, src, i, run);
      out := EmitRun(out, src[i], run);
      i := i + run;
    }
    assert src[|src|..] == [] && out + [] == out;
  }

  lemma NothingLeft()
    ensures Encode([]) == []
  {}

  lemma RunLengthIs(s: seq<byte>, run: nat)
    requires 1 <= run <= 259 && run <= |s|
    requires forall k :: 0 <= k < run ==> s[k] == s[0]
    requires run < 259 && run < |s| ==> s[run] != s[0]
    ensures RunLength(s, 259) == run
  {
    var r := RunLength(s, 259);
  }

  // ---------- decoding undoes encoding ----------

  /** Reading a short run leaves the decoder in the middle of it. */
  lemma {:induction false} DecodeShortRun(c: byte, run: nat, cnt: nat, rest: seq<byte>)
    requires run + cnt < 4
    ensures Decode(Repeat(c, run) + rest, c, cnt) == Prepend(Repeat(c, run), Decode(rest, c, cnt + run))
    decreases run
  {
    if run == 0 {
      assert Repeat(c, 0) + rest == rest;
      match Decode(rest, c, cnt) case None => case Some(t) => assert [] + t == t;
    } else {
      var w := Repeat(c, run) + rest;
      assert w[1..] == Repeat(c, run - 1) + rest;
      DecodeShortRun(c, run - 1, cnt + 1, rest);
      PrependTwice([c], Repeat(c, run - 1), Decode(rest, c, cnt + run));
      assert [c] + Repeat(c, run - 1) == Repeat(c, run);
    }
  }

  lemma PrependTwice(p: seq<byte>, q: seq<byte>, r: Option<seq<byte>>)
    ensures Prepend(p, Prepend(q, r)) == Prepend(p + q, r)
  {
    match r case None => case Some(t) => assert p + (q + t) == (p + q) + t;
  }

  /** The first byte of a run starts a fresh count unless the count just ended on the same byte. */
  lemma DecodeFirst(c: byte, rest: seq<byte>, ch: byte, cnt: nat)
    requires cnt < 4 && (c == ch ==> cnt == 0)
    ensures Decode([c] + rest, ch, cnt) == Prepend([c], Decode(rest, c, 1))
  {
    assert ([c] + rest)[1..] == rest;
  }

  /** The fourth equal byte and its count. */
  lemma DecodeCount(c: byte, more: byte, rest: seq<byte>)
    ensures Decode([c] + [more] + rest, c, 3) == Prepend([c] + Repeat(c, more), Decode(rest, c, 0))
  {
    assert ([c] + [more] + rest)[2..] == rest;
  }

  lemma DecodeRun(c: byte, run: nat, rest: seq<byte>, ch: byte, cnt: nat)
    requires 1 <= run <= 259 && cnt < 4 && (c == ch ==> cnt == 0)
    ensures Decode(RunCode(c, run) + rest, ch, cnt)
         == Prepend(Repeat(c, run), Decode(rest, c, if run >= 4 then 0 else run))
  {
    hide Decode, Prepend;
    if run < 4 {
      assert Repeat(c, run) + rest == [c] + (Repeat(c, run - 1) + rest);
      DecodeFirst(c, Repeat(c, run - 1) + rest, ch, cnt);
      DecodeShortRun(c, run - 1, 1, rest);
      PrependTwice([c], Repeat(c, run - 1), Decode(rest, c, run));
      assert [c] + Repeat(c, run - 1) == Repeat(c, run);
    } else {
      var tail := [c] + [run - 4] + rest;
      assert RunCode(c, run) + rest == [c] + (Repeat(c, 2) + tail);
      DecodeFirst(c, Repeat(c, 2) + tail, ch, cnt);
      DecodeShortRun(c, 2, 1, tail);
      DecodeCount(c, run - 4, rest);
      PrependTwice(Repeat(c, 2), [c] + Repeat(c, run - 4), Decode(rest, c, 0));
      PrependTwice([c], Repeat(c, 2) + ([c] + Repeat(c, run - 4)), Decode(rest, c, 0));
      assert [c] + (Repeat(c, 2) + ([c] + Repeat(c, run - 4))) == Repeat(c, run);
    }
  }

  lemma {:induction false} DecodeEncodeFrom(s: seq<byte>, ch: byte, cnt: nat)
    requires cnt < 4 && (|s| > 0 && s[0] == ch ==> cnt == 0)
    ensures Decode(Encode(s), ch, cnt) == Some(s)
    decreases |s|
  {
    if |s| > 0 {
      var run := RunLength(s, 259);
      var rest := s[run..];
      var cnt' := if run >= 4 then 0 else run;
      assert Repeat(s[0], run) + rest == s;
      assert Prepend(Repeat(s[0], run), Some(rest)) == Some(s);
      assert Encode(s) == RunCode(s[0], run) + Encode(rest);
      assert |rest| > 0 && rest[0] == s[0] ==> cnt' == 0;
      hide *;
      DecodeRun(s[0], run, Encode(rest), ch, cnt);
      DecodeEncodeFrom(rest, s[0], cnt');
    }
  }

  /** The decoder's state machine, started afresh, restores every input. */
  lemma DecodeEncode(s: seq<byte>)
    ensures Decode(Encode(s), 0, 0) == Some(s)
  {
    DecodeEncodeFrom(s, 0, 0);
  }

  // ---------- sizes ----------

  /** Encoding grows the input by a quarter at most. */
  lemma {:induction false} EncodeSize(s: seq<byte>)
    ensures 4 * |Encode(s)| <= 5 * |s|
    ensures |s| > 0 ==> |Encode(s)| > 0
    decreases |s|
  {
    if |s| > 0 { EncodeSize(s[RunLength(s, 259)..]); }
  }

  /** k runs of four bytes, neighbours different: every run grows to five bytes. */
  function Quads(k: nat): (s: seq<byte>)
    ensures |s| == 4 * k && (k > 0 ==> s[0] == k % 2)
  {
    if k == 0 then [] else Repeat(k % 2, 4) + Quads(k - 1)
  }

  lemma QuadsRun(k: nat)
    requires k > 0
    ensures RunLength(Quads(k), 259) == 4 && Quads(k)[4..] == Quads(k - 1)
  {
    RunLengthIs(Quads(k), 4);
  }

  lemma QuadsEncode(k: nat)
    requires k > 0
    ensures Encode(Quads(k)) == [k % 2, k % 2, k % 2, k % 2, 0] + Encode(Quads(k - 1))
  {
    QuadsRun(k);
  }

  /** The bound is reached, so a block of 900000 bytes can outgrow the decoder's limit of 900001. */
  lemma {:induction false} QuadsGrow(k: nat)
    ensures |Encode(Quads(k))| == 5 * k
    decreases k
  {
    hide Encode, Quads;
    if k > 0 {
      QuadsGrow(k - 1);
      QuadsEncode(k);
    } else {
      QuadsNone();
    }
  }

  lemma QuadsNone()
    ensures Encode(Quads(0)) == []
  {}

  /** Two values are enough. */
  lemma {:induction false} QuadsBytes(k: nat)
    ensures forall c :: c in Encode(Quads(k)) ==> c == 0 || c == 1
    decreases k
  {
    hide Encode, Quads;
    if k > 0 {
      QuadsBytes(k - 1);
      QuadsEncode(k);
    } else {
      QuadsNone();
    }
  }
}
