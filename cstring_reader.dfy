/**
  Reading a table of NUL-delimited strings out of a byte buffer. `Split` is
  the specification: the strings of the buffer in order, each with the offset
  at which it begins. `CStringReader` is the cursor that hands them out one by
  one and is proved to follow `Split`.
*/
module CStrings {
  import opened Common

  const NUL: Byte := 0

  /** One string of the table and the buffer offset where it begins. */
  datatype Entry = Entry(text: seq<Byte>, offset: nat)

  /** The index of the first NUL at or after `from`, or `|buf|` when there is none. */
  function NulFrom(buf: seq<Byte>, from: nat): (e: nat)
    requires from <= |buf|
    ensures from <= e <= |buf|
    ensures e < |buf| ==> buf[e] == NUL
    decreases |buf| - from
  {
    if from == |buf| || buf[from] == NUL then from else NulFrom(buf, from + 1)
  }

  /** No NUL lies between the scan offset and the position `NulFrom` finds. */
  lemma {:induction false} NulFromIsFirst(buf: seq<Byte>, from: nat)
    requires from <= |buf|
    ensures NUL !in buf[from..NulFrom(buf, from)]
    decreases |buf| - from
  {
    var e := NulFrom(buf, from);
    if e > from {
      NulFromIsFirst(buf, from + 1);
      assert buf[from..e] == [buf[from]] + buf[from + 1..e];
    }
  }

  /** A NUL (or the end) with no NUL before it, from the scan offset on, is what `NulFrom` finds. */
  lemma {:induction false} NulFromLeast(buf: seq<Byte>, from: nat, i: nat)
    requires from <= i <= |buf| && (i == |buf| || buf[i] == NUL)
    requires forall j :: from <= j < i ==> buf[j] != NUL
    ensures NulFrom(buf, from) == i
    decreases i - from
  {
    if from < i {
      NulFromLeast(buf, from + 1, i);
    }
  }

  /**
    The strings from offset `from` on: each runs up to the next NUL or the end
    of the buffer, and scanning resumes after the NUL. Nothing is produced once
    the scan offset reaches the end, so a final NUL yields no empty string.
  */
  function Split(buf: seq<Byte>, from: nat): seq<Entry>
    decreases |buf| - from
  {
    if from >= |buf| then []
    else
      var e := NulFrom(buf, from);
      [Entry(buf[from..e], from)] + Split(buf, e + 1)
  }

  /** The strings of `entries`, without their offsets. */
  function Texts(entries: seq<Entry>): seq<seq<Byte>>
  {
    seq(|entries|, k requires 0 <= k < |entries| => entries[k].text)
  }

  /** Every string, each followed by its NUL; `JoinSplit` and `SplitJoin` relate it to `Split`. */
  function Join(ts: seq<seq<Byte>>): seq<Byte>
  {
    if ts == [] then [] else ts[0] + [NUL] + Join(ts[1..])
  }

  /** Each entry holds no NUL and is exactly the bytes of the buffer at its offset, and all offsets lie at or after `from`. */
  lemma {:induction false} SplitEntriesAreInBuffer(buf: seq<Byte>, from: nat, k: nat)
    requires k < |Split(buf, from)|
    ensures var en := Split(buf, from)[k];
      from <= en.offset && en.offset + |en.text| <= |buf| &&
      buf[en.offset..en.offset + |en.text|] == en.text &&
      NUL !in en.text
    decreases |buf| - from
  {
    var e := NulFrom(buf, from);
    if k > 0 {
      SplitEntriesAreInBuffer(buf, e + 1, k - 1);
    } else {
      NulFromIsFirst(buf, from);
    }
  }

  /** Each string starts right after the previous string and its NUL. */
  lemma {:induction false} SplitOffsetsChain(buf: seq<Byte>, from: nat, k: nat)
    requires k + 1 < |Split(buf, from)|
    ensures var es := Split(buf, from);
      es[k + 1].offset == es[k].offset + |es[k].text| + 1
    decreases |buf| - from
  {
    var e := NulFrom(buf, from);
    SplitUnfold(buf, from);
    if k > 0 {
      SplitOffsetsChain(buf, e + 1, k - 1);
    } else {
      SplitUnfold(buf, e + 1);
    }
  }

  /** The first entry starts at `from`. */
  lemma SplitStartsAtFrom(buf: seq<Byte>, from: nat)
    requires from < |buf|
    ensures Split(buf, from) != [] && Split(buf, from)[0].offset == from
  {
  }

  /** Offsets strictly increase. */
  lemma {:induction false} SplitOffsetsIncrease(buf: seq<Byte>, from: nat, j: nat, k: nat)
    requires j < k < |Split(buf, from)|
    ensures Split(buf, from)[j].offset < Split(buf, from)[k].offset
    decreases k - j
  {
    SplitOffsetsChain(buf, from, k - 1);
    if j < k - 1 {
      SplitOffsetsIncrease(buf, from, j, k - 1);
    }
  }

  /**
    Joining the strings back with their NULs restores the buffer from `from`
    on; when the buffer does not end in NUL the last string was unterminated
    and the join adds the one missing NUL.
  */
  lemma {:induction false} JoinSplit(buf: seq<Byte>, from: nat)
    requires from <= |buf|
    ensures Join(Texts(Split(buf, from))) == Restored(buf[from..])
    decreases |buf| - from, 1
  {
    if from == |buf| {
      assert Texts(Split(buf, from)) == [];
    } else if NulFrom(buf, from) < |buf| {
      JoinSplitTerminated(buf, from);
    } else {
      JoinFirst(buf, from);
      JoinUnterminated(buf, from);
    }
  }

  /** The inductive step of `JoinSplit`, for a string that ends in a NUL. */
  lemma {:induction false} JoinSplitTerminated(buf: seq<Byte>, from: nat)
    requires from < |buf| && NulFrom(buf, from) < |buf|
    ensures Join(Texts(Split(buf, from))) == Restored(buf[from..])
    decreases |buf| - from, 0
  {
    var e := NulFrom(buf, from);
    calc {
      Join(Texts(Split(buf, from)));
      { JoinFirst(buf, from); }
      buf[from..e] + [NUL] + Join(Texts(Split(buf, e + 1)));
      { JoinSplit(buf, e + 1); }
      buf[from..e] + [NUL] + Restored(buf[e + 1..]);
      { RestoredAt(buf, from, e); }
      Restored(buf[from..]);
    }
  }

  lemma JoinUnterminated(buf: seq<Byte>, from: nat)
    requires from < |buf| && NulFrom(buf, from) == |buf|
    ensures buf[from..] + [NUL] + Join(Texts(Split(buf, |buf| + 1))) == Restored(buf[from..])
  {
    assert Texts(Split(buf, |buf| + 1)) == [];
    NulFromIsFirst(buf, from);
    assert buf[from..|buf|][|buf| - 1 - from] == buf[|buf| - 1];
  }

  /** Unfolding the first string of a join. */
  lemma JoinFirst(buf: seq<Byte>, from: nat)
    requires from < |buf|
    ensures var e := NulFrom(buf, from);
      Join(Texts(Split(buf, from))) == buf[from..e] + [NUL] + Join(Texts(Split(buf, e + 1)))
  {
    var e := NulFrom(buf, from);
    var rest := Split(buf, e + 1);
    assert Split(buf, from) == [Entry(buf[from..e], from)] + rest;
    assert Texts(Split(buf, from)) == [buf[from..e]] + Texts(rest);
  }

  /** Restoring a buffer cut at a NUL restores the part after it. */
  lemma RestoredAt(buf: seq<Byte>, from: nat, e: nat)
    requires from <= e < |buf| && buf[e] == NUL
    ensures Restored(buf[from..]) == buf[from..e] + [NUL] + Restored(buf[e + 1..])
  {
    assert buf[from..] == buf[from..e] + [NUL] + buf[e + 1..];
    RestoredAfterNul(buf[from..e], buf[e + 1..]);
  }

  /** A buffer as `Join` rebuilds it: a missing final NUL is added. */
  function Restored(tail: seq<Byte>): seq<Byte>
  {
    if tail == [] || tail[|tail| - 1] == NUL then tail else tail + [NUL]
  }

  lemma RestoredAfterNul(head: seq<Byte>, tail: seq<Byte>)
    ensures Restored(head + [NUL] + tail) == head + [NUL] + Restored(tail)
  {
    if tail != [] {
      assert (head + [NUL] + tail)[|head| + 1 + |tail| - 1] == tail[|tail| - 1];
    }
  }

  /** A NUL-terminated run `a` at `from` is the next string, and scanning resumes after its NUL. */
  lemma SplitTerminated(buf: seq<Byte>, from: nat, a: seq<Byte>)
    requires from + |a| < |buf| && buf[from..from + |a|] == a && NUL !in a && buf[from + |a|] == NUL
    ensures Split(buf, from) == [Entry(a, from)] + Split(buf, from + |a| + 1)
  {
    assert forall i :: from <= i < from + |a| ==> buf[i] == a[i - from];
    NulFromLeast(buf, from, from + |a|);
  }

  /** A run without NUL up to the end of the buffer is the last string. */
  lemma SplitUnterminated(buf: seq<Byte>, from: nat)
    requires from < |buf| && NUL !in buf[from..]
    ensures Split(buf, from) == [Entry(buf[from..], from)]
  {
    assert forall i :: from <= i < |buf| ==> buf[i] == buf[from..][i - from];
    NulFromLeast(buf, from, |buf|);
    assert buf[from..|buf|] == buf[from..];
  }

  /** Scanning for NUL behind a prefix `p` finds the NUL of `b`, shifted by `|p|`. */
  lemma {:induction false} NulFromShift(p: seq<Byte>, b: seq<Byte>, from: nat)
    requires from <= |b|
    ensures NulFrom(p + b, |p| + from) == |p| + NulFrom(b, from)
    decreases |b| - from
  {
    if from < |b| {
      assert (p + b)[|p| + from] == b[from];
      if b[from] != NUL {
        NulFromShift(p, b, from + 1);
      }
    }
  }

  /** Behind a prefix `p`, the strings of `b` are split out unchanged. */
  lemma {:induction false} SplitShift(p: seq<Byte>, b: seq<Byte>, from: nat)
    ensures Texts(Split(p + b, |p| + from)) == Texts(Split(b, from))
    decreases |b| - from
  {
    if from < |b| {
      var e := NulFrom(b, from);
      calc {
        Texts(Split(p + b, |p| + from));
        { SplitShiftStep(p, b, from); }
        [b[from..e]] + Texts(Split(p + b, |p| + e + 1));
        { SplitShift(p, b, e + 1); }
        [b[from..e]] + Texts(Split(b, e + 1));
        { TextsSplitUnfold(b, from); }
        Texts(Split(b, from));
      }
    }
  }

  /** The first string behind a prefix `p` is the first string of `b`. */
  lemma SplitShiftStep(p: seq<Byte>, b: seq<Byte>, from: nat)
    requires from < |b|
    ensures var e := NulFrom(b, from);
      Texts(Split(p + b, |p| + from)) == [b[from..e]] + Texts(Split(p + b, |p| + e + 1))
  {
    var pb := p + b;
    var e := NulFrom(b, from);
    NulFromShift(p, b, from);
    TextsSplitUnfold(pb, |p| + from);
    assert pb[|p|..] == b;
    assert pb[|p| + from..|p| + e] == pb[|p|..][from..e];
  }

  /** One step of the split: the entry up to the next NUL, then the rest. */
  lemma SplitUnfold(buf: seq<Byte>, from: nat)
    requires from < |buf|
    ensures var e := NulFrom(buf, from);
      Split(buf, from) == [Entry(buf[from..e], from)] + Split(buf, e + 1)
  {
  }

  /** One step of `readAll`: the next string moves from what remains to what was collected. */
  lemma ReadAllStep(buf: seq<Byte>, at: nat, strings: seq<seq<Byte>>)
    requires at < |buf|
    ensures var e := NulFrom(buf, at);
      strings + Texts(Split(buf, at)) == (strings + [buf[at..e]]) + Texts(Split(buf, e + 1))
  {
    var e := NulFrom(buf, at);
    TextsSplitUnfold(buf, at);
    assert strings + ([buf[at..e]] + Texts(Split(buf, e + 1))) == (strings + [buf[at..e]]) + Texts(Split(buf, e + 1));
  }

  /** One step of the split, seen through `Texts`: the first string, then the rest. */
  lemma TextsSplitUnfold(buf: seq<Byte>, from: nat)
    requires from < |buf|
    ensures var e := NulFrom(buf, from);
      Texts(Split(buf, from)) == [buf[from..e]] + Texts(Split(buf, e + 1))
  {
    var e := NulFrom(buf, from);
    SplitUnfold(buf, from);
    TextsCons(Entry(buf[from..e], from), Split(buf, e + 1));
  }

  lemma TextsCons(en: Entry, es: seq<Entry>)
    ensures Texts([en] + es) == [en.text] + Texts(es)
  {
  }

  /** Splitting a join of NUL-free strings gives the strings back. */
  lemma {:induction false} SplitJoin(ts: seq<seq<Byte>>)
    requires forall t :: t in ts ==> NUL !in t
    ensures Texts(Split(Join(ts), 0)) == ts
  {
    if ts == [] {
      assert Texts(Split([], 0)) == [];
    } else {
      var t := ts[0];
      var p := t + [NUL];
      assert ts == [t] + ts[1..];
      assert Join(ts) == p + Join(ts[1..]);
      assert Join(ts)[0..|t|] == t;
      SplitTerminated(Join(ts), 0, t);
      SplitShift(p, Join(ts[1..]), 0);
      SplitJoin(ts[1..]);
      TextsCons(Entry(t, 0), Split(Join(ts), |t| + 1));
    }
  }

  /** All strings of the buffer, as `readAll` returns them. */
  function AllStrings(buf: seq<Byte>): seq<seq<Byte>>
  {
    Texts(Split(buf, 0))
  }

  /**
    The cursor. `next` advances to the next string; `string` and `offset`
    report the last one read (empty and 0 before the first).
  */
  class CStringReader {
    const buf: seq<Byte>
    /** Scan offset: where the next string would start. */
    var scan: nat
    /** The most recently read string and its offset. */
    var str: seq<Byte>
    var off: nat
    /** The entries handed out so far. */
    ghost var read: seq<Entry>

    ghost predicate Valid()
      reads this
    {
      && scan <= |buf| + 1
      && read + Split(buf, scan) == Split(buf, 0)
      && (read == [] ==> str == [] && off == 0)
      && (read != [] ==> read[|read| - 1] == Entry(str, off))
    }

    constructor (buf: seq<Byte>)
      ensures Valid()
      ensures this.buf == buf && read == []
      ensures str == [] && off == 0
    {
      this.buf := buf;
      scan := 0;
      str := [];
      off := 0;
      read := [];
    }

    /** Index of the next NUL at or after `from`, found by a forward scan. */
    method FindNul(from: nat) returns (e: nat)
      requires from <= |buf|
      ensures e == NulFrom(buf, from)
    {
      e := from;
      while e < |buf| && buf[e] != NUL
        invariant from <= e <= |buf|
        invariant NulFrom(buf, from) == NulFrom(buf, e)
      {
        e := e + 1;
      }
    }

    /**
      Advances to the next string. The k-th call that succeeds hands out the
      k-th entry of `Split(buf, 0)`; once they are all out, calls fail and
      change nothing.
    */
    method Next() returns (ok: bool)
      requires Valid()
      modifies this
      ensures Valid()
      ensures ok <==> |old(read)| < |Split(buf, 0)|
      ensures ok ==> read == old(read) + [Entry(str, off)] && Entry(str, off) == Split(buf, 0)[|old(read)|]
      ensures !ok ==> read == old(read) && str == old(str) && off == old(off)
    {
      ghost var all := Split(buf, 0);
      ghost var rest := Split(buf, scan);
      assert all == read + rest;
      if scan >= |buf| {
        assert rest == [];
        return false;
      }
      var e := FindNul(scan);
      SplitUnfold(buf, scan);
      ghost var en := Entry(buf[scan..e], scan);
      ghost var tail := Split(buf, e + 1);
      assert all == (read + [en]) + tail;
      assert all[|read|] == en;
      str := buf[scan..e];
      off := scan;
      read := read + [en];
      scan := e + 1;
      ok := true;
    }

    function String(): seq<Byte>
      reads this
    {
      str
    }

    function Offset(): nat
      reads this
    {
      off
    }

    /** Every string of the buffer in order, scanned from the start; the cursor is left as it was. */
    method ReadAll() returns (strings: seq<seq<Byte>>)
      ensures strings == AllStrings(buf)
    {
      strings := [];
      var at := 0;
      while at < |buf|
        invariant at <= |buf| + 1
        invariant strings + Texts(Split(buf, at)) == AllStrings(buf)
        decreases |buf| + 1 - at
      {
        var e := FindNul(at);
        ReadAllStep(buf, at, strings);
        strings := strings + [buf[at..e]];
        at := e + 1;
      }
      assert Split(buf, at) == [];
    }
  }

  /** Calling `next` until it fails collects exactly what `readAll` returns, for every buffer. */
  method NextAgreesWithReadAll(buf: seq<Byte>) returns (viaNext: seq<seq<Byte>>, viaReadAll: seq<seq<Byte>>)
    ensures viaNext == viaReadAll
  {
    var reader := new CStringReader(buf);
    viaReadAll := reader.ReadAll();
    viaNext := [];
    var more := reader.Next();
    while more
      invariant reader.Valid() && reader.buf == buf
      invariant more ==> reader.read != [] && viaNext + [reader.str] == Texts(reader.read)
      invariant !more ==> viaNext == Texts(Split(buf, 0))
      decreases |Split(buf, 0)| - |reader.read| + if more then 1 else 0
    {
      viaNext := viaNext + [reader.String()];
      more := reader.Next();
    }
  }

  /** The ASCII bytes of "hello", "one", "two" and "three". */
  const Hello: seq<Byte> := [0x68, 0x65, 0x6c, 0x6c, 0x6f]
  const One: seq<Byte> := [0x6f, 0x6e, 0x65]
  const Two: seq<Byte> := [0x74, 0x77, 0x6f]
  const Three: seq<Byte> := [0x74, 0x68, 0x72, 0x65, 0x65]

  /** A buffer without NUL (test `next`, "hello"): one string, the whole buffer, then no more. */
  method NextOnUnterminated() returns (first: bool, text: seq<Byte>, offset: nat, second: bool)
    ensures first && text == Hello && offset == 0 && !second
  {
    var buf := Hello;
    SplitUnterminated(buf, 0);
    assert buf[0..] == buf;
    var reader := new CStringReader(buf);
    first := reader.Next();
    text, offset := reader.String(), reader.Offset();
    second := reader.Next();
  }

  /** "one\0two\0three\0" (test `next`): three strings at offsets 0, 4 and 8, then no more. */
  method NextOnThreeStrings() returns (texts: seq<seq<Byte>>, offsets: seq<nat>, more: bool)
    ensures texts == [One, Two, Three]
    ensures offsets == [0, 4, 8]
    ensures !more
  {
    var buf := ThreeStrings;
    ThreeStringsSplit(buf);
    ghost var all := Split(buf, 0);
    var reader := new CStringReader(buf);
    var ok := reader.Next();
    assert reader.String() == One && reader.Offset() == 0;
    texts, offsets := [reader.String()], [reader.Offset()];
    ok := reader.Next();
    assert reader.String() == Two && reader.Offset() == 4;
    texts, offsets := texts + [reader.String()], offsets + [reader.Offset()];
    ok := reader.Next();
    assert reader.String() == Three && reader.Offset() == 8;
    texts, offsets := texts + [reader.String()], offsets + [reader.Offset()];
    more := reader.Next();
  }

  /** A fresh reader (tests `string` and `offset`): empty string, offset 0, and an empty buffer yields nothing. */
  method FreshReader() returns (text: seq<Byte>, offset: nat, more: bool, all: seq<seq<Byte>>)
    ensures text == [] && offset == 0 && !more && all == []
  {
    var reader := new CStringReader([]);
    text, offset := reader.String(), reader.Offset();
    all := reader.ReadAll();
    more := reader.Next();
  }

  /** `readAll` on the two buffers of test `readAll`. */
  method ReadAllExamples() returns (single: seq<seq<Byte>>, three: seq<seq<Byte>>)
    ensures single == [Hello]
    ensures three == [One, Two, Three]
  {
    SplitUnterminated(Hello, 0);
    assert Hello[0..] == Hello;
    var reader := new CStringReader(Hello);
    single := reader.ReadAll();
    var buf := ThreeStrings;
    ThreeStringsSplit(buf);
    reader := new CStringReader(buf);
    three := reader.ReadAll();
    assert Texts(Split(buf, 0)) == [One, Two, Three];
  }

  /** "one\0two\0three\0" */
  const ThreeStrings: seq<Byte> := One + [NUL] + Two + [NUL] + Three + [NUL]

  lemma ThreeStringsSplit(buf: seq<Byte>)
    requires buf == ThreeStrings
    ensures Split(buf, 0) ==
      [Entry(One, 0), Entry(Two, 4), Entry(Three, 8)]
  {
    SplitTerminated(buf, 0, One);
    SplitTerminated(buf, 4, Two);
    SplitTerminated(buf, 8, Three);
  }
}
