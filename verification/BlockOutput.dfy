/** The last phase of the decoder: one walk through the packed table that undoes the transform and the runs together,
    with the checksum kept along the way or taken at the end. */
module BlockOutput {
  import opened Bits
  import opened BwtInverse
  import opened BwtWalk
  import opened Rle1
  import Crc

  const DEFER_ROOM: nat := 4096
  const DEFER_RUN: nat := 512

  /** The decoded bytes fit into the room. */
  ghost predicate FitsRoom(text: seq<byte>, room: nat) {
    Decode(text, 0, 0).Some? && |Decode(text, 0, 0).value| <= room
  }

  /** After nb bytes of the walk, `done` is written and the run counter says how to go on. */
  ghost predicate Halfway(text: seq<byte>, nb: nat, done: seq<byte>, ch: byte, cnt: nat) {
    && nb <= |text| && cnt < 4
    && Decode(text, 0, 0) == Prepend(done, Decode(text[nb..], ch, cnt))
  }

  lemma Beginning(text: seq<byte>)
    ensures Halfway(text, 0, [], 0, 0)
  {
    assert text[0..] == text;
    if Decode(text, 0, 0).Some? { assert [] + Decode(text, 0, 0).value == Decode(text, 0, 0).value; }
  }

  lemma Finished(text: seq<byte>, done: seq<byte>, ch: byte, cnt: nat)
    requires Halfway(text, |text|, done, ch, cnt)
    ensures Decode(text, 0, 0) == Some(done)
  {
    assert done + [] == done;
  }

  /** How one more byte, and the count behind a fourth equal byte, continue the output. */
  lemma OneByteMore(text: seq<byte>, nb: nat, done: seq<byte>, ch: byte, cnt: nat)
    requires Halfway(text, nb, done, ch, cnt) && nb < |text|
    ensures cnt < 4
    ensures var c := text[nb];
            && (c != ch ==> Halfway(text, nb + 1, done + [c], c, 1))
            && (c == ch && cnt < 3 ==> Halfway(text, nb + 1, done + [c], ch, cnt + 1))
            && (c == ch && cnt == 3 && nb + 1 == |text| ==> Decode(text, 0, 0).None?)
            && (c == ch && cnt == 3 && nb + 1 < |text| ==>
                 Halfway(text, nb + 2, (done + [c]) + Repeat(ch, text[nb + 1]), ch, 0))
  {
    var w := text[nb..];
    assert w[0] == text[nb] && w[1..] == text[nb + 1..];
    if w[0] != ch {
      PrependTwice(done, [w[0]], Decode(w[1..], w[0], 1));
    } else if cnt < 3 {
      PrependTwice(done, [ch], Decode(w[1..], ch, cnt + 1));
    } else if |w| > 1 {
      assert w[1] == text[nb + 1] && w[2..] == text[nb + 2..];
      PrependTwice(done, [ch] + Repeat(ch, w[1]), Decode(w[2..], ch, 0));
      Assoc(done, [ch], Repeat(ch, w[1]));
    }
  }

  /** What is written already is part of the result. */
  lemma NoRoom(text: seq<byte>, nb: nat, done: seq<byte>, ch: byte, cnt: nat, room: nat)
    requires Halfway(text, nb, done, ch, cnt)
    requires |done| > room || (|done| == room && nb < |text|)
    ensures !FitsRoom(text, room)
  {
    if nb < |text| && Decode(text, 0, 0).Some? { SomeBytes(text[nb..], ch, cnt); }
  }

  lemma SomeBytes(w: seq<byte>, ch: byte, cnt: nat)
    requires cnt < 4 && |w| > 0 && Decode(w, ch, cnt).Some?
    ensures |Decode(w, ch, cnt).value| > 0
  {}

  class Output {
    const dst: array<byte>
    const begin: nat
    const tt: array<int>
    const nblock: nat
    ghost const column: seq<byte>
    ghost const primary: nat
    var out: nat
    var tPos: int
    var nb: nat
    var runCh: byte
    var runCnt: nat

    ghost predicate Fixed()
      reads this, tt
    {
      && begin <= dst.Length && tt != dst as object && |column| == nblock <= 0x100000 && primary < nblock
      && PackedTable(column, tt[..])
    }

    /** The block after the run-length coding. */
    ghost function Text(): seq<byte>
      requires primary < |column|
    {
      Unbwt(column, primary)
    }

    ghost function Done(): seq<byte>
      requires begin <= out <= dst.Length
      reads this, dst
    {
      dst[begin..out]
    }

    ghost predicate Valid()
      reads this, tt, dst
    {
      && Fixed() && begin <= out <= dst.Length && nb <= nblock && tPos == Row(column, primary, nb)
      && Halfway(Text(), nb, Done(), runCh, runCnt)
    }

    constructor (dst: array<byte>, begin: nat, tt: array<int>, primary: nat, ghost column: seq<byte>, nblock: nat)
      requires begin <= dst.Length && tt != dst as object && nblock == |column| <= 0x100000 && primary < nblock
      requires PackedTable(column, tt[..])
      ensures Valid() && this.dst == dst && this.begin == begin && out == begin && this.tt == tt && nb == 0
      ensures this.column == column && this.primary == primary && this.nblock == nblock
    {
      FirstRow(column, tt[..], primary);
      Beginning(Unbwt(column, primary));
      this.dst, this.begin, this.tt, this.nblock, this.column, this.primary := dst, begin, tt, nblock, column, primary;
      out, nb, runCh, runCnt := begin, 0, 0, 0;
      tPos := tt[primary] % INDEX_LIMIT;
      new;
      assert dst[begin..begin] == [];
    }

    /** Reads the next character off the walk. */
    method Take() returns (c: byte)
      requires Fixed() && nb < nblock && tPos == Row(column, primary, nb)
      modifies `tPos, `nb
      ensures nb == old(nb) + 1 && tPos == Row(column, primary, nb) && c == Text()[old(nb)]
    {
      RowStep(column, tt[..], primary, nb);
      var packed := tt[tPos];
      assert packed == tt[..][tPos];
      c := packed / INDEX_LIMIT;
      tPos := packed % INDEX_LIMIT;
      nb := nb + 1;
    }

    /** Stores cnt copies at the output position. */
    method RepeatStore(b: byte, cnt: nat)
      requires begin <= out && out + cnt <= dst.Length
      modifies dst
      ensures dst[out..out + cnt] == Repeat(b, cnt)
      ensures dst[..out] == old(dst[..out])
    {
      for k := 0 to cnt
        invariant forall i :: out <= i < out + k ==> dst[i] == b
        invariant forall i :: 0 <= i < out ==> dst[i] == old(dst[i])
      {
        dst[out + k] := b;
      }
      assert dst[out..out + cnt] == Repeat(b, cnt);
    }

    /** Behind a fourth equal byte: reads the count off the walk and stores the repeats. */
    method RepeatRun(ghost done: seq<byte>) returns (ok: bool, cnt: nat)
      requires Fixed() && begin <= out <= dst.Length && 0 < nb <= nblock && tPos == Row(column, primary, nb)
      requires Halfway(Text(), nb - 1, done, runCh, 3) && Text()[nb - 1] == runCh && Done() == done + [runCh]
      modifies this, dst
      ensures dst[..begin] == old(dst[..begin])
      ensures ok ==> Valid() && nb > old(nb) && Done() == old(Done()) + Repeat(old(runCh), cnt)
      ensures !ok ==> !FitsRoom(Text(), dst.Length - begin)
    {
      hide Halfway, FitsRoom, PackedTable, Unbwt, Row, Decode, Prepend, Repeat;
      cnt := 0;
      OneByteMore(Text(), nb - 1, done, runCh, 3);
      if nb >= nblock {
        MissingCount(Text(), dst.Length - begin);
        return false, cnt;
      }
      cnt := Take();
      if dst.Length - out < cnt {
        NoRoom(Text(), nb, done + [runCh] + Repeat(runCh, cnt), runCh, 0, dst.Length - begin);
        return false, cnt;
      }
      RepeatStore(runCh, cnt);
      assert dst[begin..out] == done + [runCh] by { assert dst[..out][begin..] == dst[begin..out]; }
      assert dst[begin..out + cnt] == dst[begin..out] + dst[out..out + cnt];
      out := out + cnt;
      runCnt := 0;
      return true, cnt;
    }

    /** One turn of the loop: one byte, and its repeats when it is the fourth of a run (-1 when it is not). */
    method Step() returns (ok: bool, c: byte, repeats: int)
      requires Valid() && nb < nblock
      modifies this, dst
      ensures dst[..begin] == old(dst[..begin])
      ensures ok ==> Valid() && nb > old(nb)
      ensures ok ==> -1 <= repeats && Done() == (old(Done()) + [c]) + (if repeats < 0 then [] else Repeat(c, repeats))
      ensures !ok ==> !FitsRoom(Text(), dst.Length - begin)
    {
      hide Halfway, FitsRoom, PackedTable, Unbwt, Row, Decode, Prepend, Repeat;
      ghost var done, text := Done(), Text();
      ghost var nb0 := nb;
      OneByteMore(text, nb, done, runCh, runCnt);
      c := Take();
      repeats := -1;
      if out >= dst.Length {
        NoRoom(text, nb0, done, runCh, runCnt, dst.Length - begin);
        return false, c, repeats;
      }
      dst[out] := c;
      out := out + 1;
      assert Done() == done + [c];
      if c == runCh {
        runCnt := runCnt + 1;
        if runCnt == 4 { ok, repeats := RepeatRun(done); return; }
      } else {
        runCh, runCnt := c, 1;
      }
      return true, c, repeats;
    }
  }

  lemma MissingCount(text: seq<byte>, room: nat)
    requires Decode(text, 0, 0).None?
    ensures !FitsRoom(text, room)
  {}

  /** Goes on without the checksum, which is taken over the whole block at the end. */
  method WalkDeferred(o: Output, t: array2<Crc.word>) returns (ok: bool, crc: Crc.word)
    requires o.Valid() && Crc.IsTables(t)
    modifies o, o.dst
    ensures o.dst[..o.begin] == old(o.dst[..o.begin])
    ensures ok <==> FitsRoom(o.Text(), o.dst.Length - o.begin)
    ensures ok ==> o.begin <= o.out <= o.dst.Length && Decode(o.Text(), 0, 0) == Some(o.Done())
    ensures ok ==> crc == Crc.Checksum(o.Done())
  {
    hide Halfway, FitsRoom, PackedTable, Unbwt, Row, Decode, Crc.IsTables, Crc.Checksum;
    crc := Zeros(32);
    while o.nb < o.nblock
      invariant o.Valid() && o.dst[..o.begin] == old(o.dst[..o.begin])
      decreases o.nblock - o.nb
    {
      var c, repeats;
      ok, c, repeats := o.Step();
      if !ok { return false, crc; }
    }
    AllWritten(o);
    crc := Crc.BlockChecksum(t, o.dst[o.begin..o.out]);
    return true, crc;
  }

  lemma AllWritten(o: Output)
    requires o.Valid() && o.nb == o.nblock
    ensures Decode(o.Text(), 0, 0) == Some(o.Done()) && FitsRoom(o.Text(), o.dst.Length - o.begin)
  {
    Finished(o.Text(), o.Done(), o.runCh, o.runCnt);
  }

  /** Keeps the checksum along the way, and gives that up once long runs make up half of the output. */
  method WalkIncremental(o: Output, t: array2<Crc.word>) returns (ok: bool, crc: Crc.word)
    requires o.Valid() && Crc.IsTables(t) && o.out == o.begin
    modifies o, o.dst
    ensures o.dst[..o.begin] == old(o.dst[..o.begin])
    ensures ok <==> FitsRoom(o.Text(), o.dst.Length - o.begin)
    ensures ok ==> o.begin <= o.out <= o.dst.Length && Decode(o.Text(), 0, 0) == Some(o.Done())
    ensures ok ==> crc == Crc.Checksum(o.Done())
  {
    hide Halfway, FitsRoom, PackedTable, Unbwt, Row, Decode, Crc.IsTables, Crc.Fold;
    crc := Ones(32);
    var runExtra := 0;
    NothingFolded(o);
    while o.nb < o.nblock
      invariant o.Valid() && o.dst[..o.begin] == old(o.dst[..o.begin])
      invariant crc == Crc.Fold(Ones(32), o.Done())
      decreases o.nblock - o.nb
    {
      var c, repeats;
      ghost var done := o.Done();
      ok, c, repeats := o.Step();
      if !ok { return false, crc; }
      crc := Crc.Update(t, crc, c);
      FoldStep(done, c, if repeats < 0 then 0 else repeats);
      if repeats >= 0 {
        runExtra := runExtra + repeats;
        if runExtra >= DEFER_RUN && runExtra * 2 >= o.out - o.begin {
          ok, crc := WalkDeferred(o, t);
          return;
        }
        crc := Crc.UpdateRepeat(t, crc, c, repeats);
      }
    }
    AllWritten(o);
    crc := Crc.Xor(crc, Ones(32));
    return true, crc;
  }

  lemma NothingFolded(o: Output)
    requires o.begin == o.out <= o.dst.Length
    ensures Crc.Fold(Ones(32), o.Done()) == Ones(32)
  {}

  lemma FoldStep(done: seq<byte>, c: byte, repeats: nat)
    ensures var start := Crc.Fold(Ones(32), done);
            && Crc.Fold(Ones(32), (done + [c]) + []) == Crc.Absorb(start, c)
            && Crc.Fold(Ones(32), (done + [c]) + Repeat(c, repeats))
               == Crc.Fold(Crc.Absorb(start, c), Repeat(c, repeats))
  {
    var next := done + [c];
    assert next[..|next|] == next && next[..|done|] == done;
    Crc.FoldOneMore(Ones(32), next, |done|);
    assert next + [] == next;
    Crc.FoldConcat(Ones(32), next, Repeat(c, repeats));
  }

  /** Both ways agree on the bytes, on the checksum and on when the block is refused. */
  method WalkBlock(o: Output, t: array2<Crc.word>) returns (ok: bool, crc: Crc.word)
    requires o.Valid() && Crc.IsTables(t) && o.out == o.begin
    modifies o, o.dst
    ensures o.dst[..o.begin] == old(o.dst[..o.begin])
    ensures ok <==> FitsRoom(o.Text(), o.dst.Length - o.begin)
    ensures ok ==> o.begin <= o.out <= o.dst.Length && Decode(o.Text(), 0, 0) == Some(o.Done())
    ensures ok ==> crc == Crc.Checksum(o.Done())
  {
    if o.dst.Length - o.out >= DEFER_ROOM {
      ok, crc := WalkDeferred(o, t);
    } else {
      ok, crc := WalkIncremental(o, t);
    }
  }
}
