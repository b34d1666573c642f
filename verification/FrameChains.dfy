/** The linked frames on the stack (slake/obj/context.h): major frames, their minor frames and the
    records of their local variables, each linked to the previous one by stack offsets. */
module FrameChains {
  import opened StackMemory
  import opened FrameSpec

  /** Where a minor frame and its records, newest first, are among the live cells. */
  datatype MinorIdx = MinorIdx(minor: nat, records: seq<nat>)

  datatype FrameIdx = FrameIdx(major: nat, minors: seq<MinorIdx>)

  /** rs is the chain of records that starts at offset head, all of them between lo and hi. */
  ghost predicate RecordsOk(items: seq<Item>, rs: seq<nat>, head: nat, lo: nat, hi: nat)
    requires hi <= |items|
    decreases |rs|
  {
    if rs == [] then head == SIZE_MAX else
      && lo < rs[0] < hi && items[rs[0]].cell.RecordCell? && items[rs[0]].off == head
      && RecordsOk(items, rs[1..], items[rs[0]].cell.offNext, lo, rs[0])
  }

  /** The offset that links to the last of the minor frames. */
  ghost function LastMinor(items: seq<Item>, ms: seq<MinorIdx>): nat {
    if ms != [] && ms[|ms| - 1].minor < |items| then items[ms[|ms| - 1].minor].off else SIZE_MAX
  }

  /** ms is a chain of minor frames between lo and hi, the innermost one last. */
  ghost predicate MinorsOk(items: seq<Item>, ms: seq<MinorIdx>, lo: nat, hi: nat)
    requires hi <= |items|
    decreases |ms|
  {
    ms != [] ==>
      var (m, outer) := (ms[|ms| - 1], ms[..|ms| - 1]);
      && lo < m.minor < hi && MinorOk(items, m, outer, hi)
      && MinorsOk(items, outer, lo, m.minor)
  }

  /** One minor frame's links; it was entered with the stack at its base. */
  ghost predicate MinorOk(items: seq<Item>, m: MinorIdx, outer: seq<MinorIdx>, hi: nat)
    requires m.minor < hi <= |items|
  {
    && items[m.minor].cell.MinorCell?
    && items[m.minor].cell.minor.offLast == LastMinor(items, outer)
    && RecordsOk(items, m.records, items[m.minor].cell.minor.offRecords, m.minor, hi)
    && (outer != [] ==> Top(items[..m.minor]) <= items[m.minor].cell.minor.stackBase < items[m.minor].off)
  }

  ghost function LastMajor(items: seq<Item>, fs: seq<FrameIdx>): nat {
    if fs != [] && fs[|fs| - 1].major < |items| then items[fs[|fs| - 1].major].off else SIZE_MAX
  }

  /** fs is a doubly linked chain of major frames below hi, the current one last; next is what the
      current one links to. */
  ghost predicate FramesOk(items: seq<Item>, fs: seq<FrameIdx>, hi: nat, next: nat)
    requires hi <= |items|
    decreases |fs|
  {
    fs != [] ==>
      var (f, outer) := (fs[|fs| - 1], fs[..|fs| - 1]);
      && f.major < hi && items[f.major].cell.MajorCell?
      && MajorOk(items, f, items[f.major].cell.major, outer, hi, next)
      && FramesOk(items, outer, f.major, items[f.major].off)
  }

  /** One frame's links and its minor frames. */
  ghost predicate MajorOk(items: seq<Item>, f: FrameIdx, mf: MajorFrame, outer: seq<FrameIdx>, hi: nat, next: nat)
    requires f.major < hi <= |items|
  {
    && mf.offNext == next && mf.offPrev == LastMajor(items, outer)
    && f.minors != [] && mf.offCurMinor == LastMinor(items, f.minors) && MinorsOk(items, f.minors, f.major, hi)
    && Top(items[..f.major]) <= mf.prevStackTop < items[f.major].off
  }

  // ----- What the chains stand for

  ghost function RecordReg(items: seq<Item>, r: nat): nat {
    if r < |items| && items[r].cell.RecordCell? then items[r].cell.defReg else 0
  }

  ghost function AbsMinor(items: seq<Item>, m: MinorIdx): AMinor {
    AMinor(if m.minor < |items| && items[m.minor].cell.MinorCell? then items[m.minor].cell.minor.stackBase else 0,
           seq(|m.records|, r requires 0 <= r < |m.records| => RecordReg(items, m.records[r])))
  }

  ghost function AbsFrame(items: seq<Item>, f: FrameIdx): AFrame {
    var mf := if f.major < |items| && items[f.major].cell.MajorCell? then items[f.major].cell.major else NoFrame();
    AFrame(mf.prevStackTop, AbsMinors(items, f.minors), mf.data)
  }

  ghost function AbsMinors(items: seq<Item>, ms: seq<MinorIdx>): seq<AMinor> {
    seq(|ms|, j requires 0 <= j < |ms| => AbsMinor(items, ms[j]))
  }

  ghost function NoFrame(): MajorFrame {
    MajorFrame(0, 0, 0, 0, FrameData(0, 0, 0, 0, 0, 0, []))
  }

  ghost function AbsFrames(items: seq<Item>, fs: seq<FrameIdx>): seq<AFrame> {
    seq(|fs|, i requires 0 <= i < |fs| => AbsFrame(items, fs[i]))
  }

  // ----- The chains depend on the cells they go through only

  /** Equal cells, or plain blocks at the same place: no chain goes through a block. */
  ghost predicate Alike(x: Item, y: Item) {
    x.off == y.off && (x.cell == y.cell || (x.cell.Block? && y.cell.Block?))
  }

  ghost predicate AlikeBetween(a: seq<Item>, b: seq<Item>, lo: int, hi: int)
    requires hi <= |a| && hi <= |b|
  {
    forall k {:trigger a[k]} {:trigger b[k]} :: 0 <= k && lo < k < hi ==> Alike(a[k], b[k])
  }

  lemma {:induction false} RecordsAgree(a: seq<Item>, b: seq<Item>, rs: seq<nat>, head: nat, lo: nat, hi: nat)
    requires hi <= |a| && hi <= |b| && AlikeBetween(a, b, lo, hi)
    requires RecordsOk(a, rs, head, lo, hi)
    ensures RecordsOk(b, rs, head, lo, hi)
    ensures forall i :: 0 <= i < |rs| ==> lo < rs[i] < hi && RecordReg(a, rs[i]) == RecordReg(b, rs[i])
    decreases |rs|
  {
    if rs != [] {
      RecordsAgree(a, b, rs[1..], a[rs[0]].cell.offNext, lo, rs[0]);
      forall i | 0 <= i < |rs|
        ensures lo < rs[i] < hi && RecordReg(a, rs[i]) == RecordReg(b, rs[i])
      {
        if i > 0 {
          assert rs[i] == rs[1..][i - 1];
        }
      }
    }
  }

  /** The highest offset below index n, when it is asked for above lo only. */
  lemma TopAgree(a: seq<Item>, b: seq<Item>, lo: nat, n: nat)
    requires lo < n <= |a| && n <= |b| && forall k :: lo <= k < n ==> a[k].off == b[k].off
    ensures Top(a[..n]) == Top(b[..n])
  {
  }

  lemma TopBelow(a: seq<Item>, b: seq<Item>, n: nat)
    requires n <= |a| && n <= |b| && AlikeBetween(a, b, -1, n)
    ensures Top(a[..n]) == Top(b[..n])
  {
  }

  lemma {:induction false} MinorsAgree(a: seq<Item>, b: seq<Item>, ms: seq<MinorIdx>, lo: nat, hi: nat)
    requires hi <= |a| && hi <= |b| && lo < |a| && lo < |b| && a[lo].off == b[lo].off
    requires AlikeBetween(a, b, lo, hi)
    requires MinorsOk(a, ms, lo, hi)
    ensures MinorsOk(b, ms, lo, hi) && LastMinor(a, ms) == LastMinor(b, ms)
    ensures AbsMinors(a, ms) == AbsMinors(b, ms)
    decreases |ms|
  {
    if ms != [] {
      var (m, outer) := (ms[|ms| - 1], ms[..|ms| - 1]);
      SplitLast(ms);
      MinorsAgree(a, b, outer, lo, m.minor);
      hide AbsMinors, AbsMinor;
      MinorAgrees(a, b, m, outer, lo, hi);
      AbsMinorsSnoc(a, outer, m);
      AbsMinorsSnoc(b, outer, m);
      hide MinorOk;
    }
  }

  lemma MinorAgrees(a: seq<Item>, b: seq<Item>, m: MinorIdx, outer: seq<MinorIdx>, lo: nat, hi: nat)
    requires lo < m.minor < hi <= |a| && hi <= |b| && a[lo].off == b[lo].off && AlikeBetween(a, b, lo, hi)
    requires MinorOk(a, m, outer, hi) && LastMinor(a, outer) == LastMinor(b, outer)
    ensures MinorOk(b, m, outer, hi) && AbsMinor(a, m) == AbsMinor(b, m) && a[m.minor].off == b[m.minor].off
  {
    RecordsAgree(a, b, m.records, a[m.minor].cell.minor.offRecords, m.minor, hi);
    TopAgree(a, b, lo, m.minor);
    hide RecordsOk, RecordReg, LastMinor, Top;
    assert AbsMinor(a, m).locals == AbsMinor(b, m).locals;
  }

  lemma AbsMinorsSnoc(items: seq<Item>, ms: seq<MinorIdx>, m: MinorIdx)
    ensures AbsMinors(items, ms + [m]) == AbsMinors(items, ms) + [AbsMinor(items, m)]
  {
  }

  lemma {:induction false} FramesAgree(a: seq<Item>, b: seq<Item>, fs: seq<FrameIdx>, hi: nat, next: nat)
    requires hi <= |a| && hi <= |b| && AlikeBetween(a, b, -1, hi) && FramesOk(a, fs, hi, next)
    ensures FramesOk(b, fs, hi, next) && AbsFrames(a, fs) == AbsFrames(b, fs) && LastMajor(a, fs) == LastMajor(b, fs)
    decreases |fs|
  {
    if fs != [] {
      var (f, outer) := (fs[|fs| - 1], fs[..|fs| - 1]);
      SplitLast(fs);
      assert Alike(a[f.major], b[f.major]);
      FramesAgree(a, b, outer, f.major, a[f.major].off);
      hide AbsFrames, AbsFrame;
      MajorAgrees(a, b, f, outer, hi, next);
      AbsFramesSnoc(a, outer, f);
      AbsFramesSnoc(b, outer, f);
      hide MajorOk;
    }
  }

  lemma SplitLast<T>(s: seq<T>)
    requires s != []
    ensures s == s[..|s| - 1] + [s[|s| - 1]]
  {
  }

  lemma MajorAgrees(a: seq<Item>, b: seq<Item>, f: FrameIdx, outer: seq<FrameIdx>, hi: nat, next: nat)
    requires f.major < hi <= |a| && hi <= |b| && AlikeBetween(a, b, -1, hi)
    requires LastMajor(a, outer) == LastMajor(b, outer)
    requires a[f.major].cell.MajorCell? && MajorOk(a, f, a[f.major].cell.major, outer, hi, next)
    ensures b[f.major] == a[f.major] && MajorOk(b, f, b[f.major].cell.major, outer, hi, next)
    ensures AbsFrame(a, f) == AbsFrame(b, f)
  {
    TopBelow(a, b, f.major);
    MinorsAgree(a, b, f.minors, f.major, hi);
    hide MinorsOk, AbsMinors, LastMajor, LastMinor, Top;
  }

  lemma AbsFramesSnoc(items: seq<Item>, fs: seq<FrameIdx>, f: FrameIdx)
    ensures AbsFrames(items, fs + [f]) == AbsFrames(items, fs) + [AbsFrame(items, f)]
  {
  }

  lemma {:induction false} RecordsWiden(items: seq<Item>, rs: seq<nat>, head: nat, lo: nat, hi: nat, wider: nat)
    requires hi <= wider <= |items| && RecordsOk(items, rs, head, lo, hi)
    ensures RecordsOk(items, rs, head, lo, wider)
  {
  }

  lemma {:induction false} MinorsWiden(items: seq<Item>, ms: seq<MinorIdx>, lo: nat, hi: nat, wider: nat)
    requires hi <= wider <= |items| && MinorsOk(items, ms, lo, hi)
    ensures MinorsOk(items, ms, lo, wider)
  {
  }

  /** Replacing the current frame, and whatever lies above it, by f. */
  lemma Rebuild(a: seq<Item>, b: seq<Item>, outer: seq<FrameIdx>, f: FrameIdx, next: nat)
    requires f.major < |a| && f.major < |b| && AlikeBetween(a, b, -1, f.major) && a[f.major].off == b[f.major].off
    requires FramesOk(a, outer, f.major, a[f.major].off)
    requires b[f.major].cell.MajorCell? && MajorOk(b, f, b[f.major].cell.major, outer, |b|, next)
    ensures FramesOk(b, outer + [f], |b|, next) && LastMajor(b, outer + [f]) == a[f.major].off
    ensures LastMajor(a, outer) == LastMajor(b, outer)
    ensures AbsFrames(b, outer + [f]) == AbsFrames(a, outer) + [AbsFrame(b, f)]
  {
    FramesAgree(a, b, outer, f.major, a[f.major].off);
    assert (outer + [f])[..|outer|] == outer;
  }

  /** The current frame and the ones below it. */
  lemma Current(items: seq<Item>, fs: seq<FrameIdx>, next: nat) returns (outer: seq<FrameIdx>, f: FrameIdx)
    requires FramesOk(items, fs, |items|, next) && fs != []
    ensures fs == outer + [f] && f.major < |items| && items[f.major].cell.MajorCell?
    ensures items[f.major].off == LastMajor(items, fs)
    ensures MajorOk(items, f, items[f.major].cell.major, outer, |items|, next)
    ensures FramesOk(items, outer, f.major, items[f.major].off)
    ensures AbsFrames(items, fs) == AbsFrames(items, outer) + [AbsFrame(items, f)]
  {
    outer, f := fs[..|fs| - 1], fs[|fs| - 1];
  }

  /** Only the data of the current frame changes, and what it links to. */
  lemma Relinked(a: seq<Item>, fs: seq<FrameIdx>, next: nat, next2: nat, data: FrameData)
    returns (outer: seq<FrameIdx>, f: FrameIdx, b: seq<Item>)
    requires FramesOk(a, fs, |a|, next) && fs != []
    ensures fs == outer + [f] && f.major < |a| && a[f.major].cell.MajorCell?
    ensures b == a[f.major := Item(a[f.major].off, MajorCell(a[f.major].cell.major.(offNext := next2, data := data)))]
    ensures FramesOk(b, fs, |b|, next2) && LastMajor(b, fs) == LastMajor(a, fs) == a[f.major].off
    ensures AbsFrames(b, fs) == AbsFrames(a, outer) + [AbsFrame(a, f).(data := data)]
    ensures AbsFrames(a, fs) == AbsFrames(a, outer) + [AbsFrame(a, f)]
    ensures AbsFrame(a, f).data == a[f.major].cell.major.data && a[f.major].cell.major.offNext == next
  {
    outer, f := Current(a, fs, next);
    hide FramesOk, AbsFrames;
    b := a[f.major := Item(a[f.major].off, MajorCell(a[f.major].cell.major.(offNext := next2, data := data)))];
    MinorsAgree(a, b, f.minors, f.major, |a|);
    TopBelow(a, b, f.major);
    LastMajorAgree(a, b, outer, f.major);
    Rebuild(a, b, outer, f, next2);
  }

  lemma LastMajorAgree(a: seq<Item>, b: seq<Item>, outer: seq<FrameIdx>, hi: nat)
    requires hi <= |a| && hi <= |b| && AlikeBetween(a, b, -1, hi) && (outer != [] ==> outer[|outer| - 1].major < hi)
    ensures LastMajor(a, outer) == LastMajor(b, outer)
  {
  }

  /** A new innermost minor frame at off. */
  lemma MinorEntered(a: seq<Item>, fs: seq<FrameIdx>, off: nat, base: nat)
    returns (outer: seq<FrameIdx>, f: FrameIdx, g: FrameIdx, b: seq<Item>)
    requires FramesOk(a, fs, |a|, SIZE_MAX) && fs != [] && Top(a) <= base < off
    ensures fs == outer + [f] && f.major < |a| && a[f.major].cell.MajorCell?
    ensures var mf := a[f.major].cell.major;
            b == (a + [Item(off, MinorCell(MinorFrame(mf.offCurMinor, SIZE_MAX, base)))])
                 [f.major := Item(a[f.major].off, MajorCell(mf.(offCurMinor := off)))]
    ensures g == f.(minors := f.minors + [MinorIdx(|a|, [])]) && a[f.major].off == LastMajor(a, fs)
    ensures FramesOk(b, outer + [g], |b|, SIZE_MAX) && LastMajor(b, outer + [g]) == LastMajor(a, fs)
    ensures AbsFrames(a, fs) == AbsFrames(a, outer) + [AbsFrame(a, f)]
    ensures AbsFrames(b, outer + [g]) == AbsFrames(a, outer) +
              [AbsFrame(a, f).(minors := AbsFrame(a, f).minors + [AMinor(base, [])])]
  {
    hide FramesOk, AbsFrames;
    outer, f := Current(a, fs, SIZE_MAX);
    var mf := a[f.major].cell.major;
    var n := |a|;
    b := (a + [Item(off, MinorCell(MinorFrame(mf.offCurMinor, SIZE_MAX, base)))])
         [f.major := Item(a[f.major].off, MajorCell(mf.(offCurMinor := off)))];
    g := f.(minors := f.minors + [MinorIdx(n, [])]);
    MinorsAgree(a, b, f.minors, f.major, n);
    assert g.minors[..|f.minors|] == f.minors;
    TopAgree(a, b, f.major, n);
    assert a[..n] == a;
    TopBelow(a, b, f.major);
    LastMajorAgree(a, b, outer, f.major);
    assert MinorsOk(b, g.minors, f.major, n + 1);
    Rebuild(a, b, outer, g, SIZE_MAX);
    AbsMinorsSnoc(b, f.minors, MinorIdx(n, []));
    assert AbsMinor(b, MinorIdx(n, [])) == AMinor(base, []);
  }

  /** Cells pushed above everything belong to no chain. */
  lemma CellsPushed(a: seq<Item>, fs: seq<FrameIdx>, more: seq<Item>)
    requires FramesOk(a, fs, |a|, SIZE_MAX)
    ensures FramesOk(a + more, fs, |a + more|, SIZE_MAX) && LastMajor(a + more, fs) == LastMajor(a, fs)
    ensures AbsFrames(a + more, fs) == AbsFrames(a, fs)
  {
    var b := a + more;
    if fs != [] {
      var outer, f := Current(a, fs, SIZE_MAX);
      hide FramesOk, AbsFrames;
      TopBelow(a, b, f.major);
      MinorsAgree(a, b, f.minors, f.major, |a|);
      MinorsWiden(b, f.minors, f.major, |a|, |b|);
      LastMajorAgree(a, b, outer, f.major);
      Rebuild(a, b, outer, f, SIZE_MAX);
    }
  }

  /** A record at off, on top of everything, for register reg in the innermost minor frame. */
  lemma RecordAdded(a: seq<Item>, fs: seq<FrameIdx>, off: nat, reg: nat)
    returns (outer: seq<FrameIdx>, f: FrameIdx, k: nat, g: FrameIdx, b: seq<Item>)
    requires FramesOk(a, fs, |a|, SIZE_MAX) && fs != []
    ensures fs == outer + [f] && f.minors != [] && f.minors[|f.minors| - 1].minor == k && k < |a|
    ensures a[k].cell.MinorCell?
    ensures a[k].off == LastMinor(a, f.minors)
    ensures b == (a + [Item(off, RecordCell(a[k].cell.minor.offRecords, reg))])
                 [k := Item(a[k].off, MinorCell(a[k].cell.minor.(offRecords := off)))]
    ensures FramesOk(b, outer + [g], |b|, SIZE_MAX) && LastMajor(b, outer + [g]) == LastMajor(a, fs)
    ensures f.major < |a| && a[f.major].cell.MajorCell? && a[f.major].cell.major.offCurMinor == a[k].off
    ensures a[f.major].off == LastMajor(a, fs)
    ensures AbsFrames(a, fs) == AbsFrames(a, outer) + [AbsFrame(a, f)] && |AbsFrame(a, f).minors| == |f.minors|
    ensures var ms := AbsFrame(a, f).minors; var last := ms[|ms| - 1];
            AbsFrames(b, outer + [g]) ==
              AbsFrames(a, outer) + [AbsFrame(a, f).(minors := ms[|ms| - 1 := last.(locals := [reg] + last.locals)])]
  {
    outer, f := Current(a, fs, SIZE_MAX);
    hide FramesOk, AbsFrames, RecordsOk, AbsMinor;
    k := f.minors[|f.minors| - 1].minor;
    b := (a + [Item(off, RecordCell(a[k].cell.minor.offRecords, reg))])
         [k := Item(a[k].off, MinorCell(a[k].cell.minor.(offRecords := off)))];
    var ms := RecordOnMinors(a, b, f.minors, f.major, k, off, reg);
    g := f.(minors := ms);
    TopBelow(a, b, f.major);
    LastMajorAgree(a, b, outer, f.major);
    Rebuild(a, b, outer, g, SIZE_MAX);
  }

  lemma RecordOnMinors(a: seq<Item>, b: seq<Item>, ms: seq<MinorIdx>, lo: nat, k: nat, off: nat, reg: nat)
    returns (ms2: seq<MinorIdx>)
    requires MinorsOk(a, ms, lo, |a|) && lo < |a| && ms != [] && ms[|ms| - 1].minor == k
    requires b == (a + [Item(off, RecordCell(a[k].cell.minor.offRecords, reg))])
                  [k := Item(a[k].off, MinorCell(a[k].cell.minor.(offRecords := off)))]
    ensures ms2 != [] && MinorsOk(b, ms2, lo, |b|) && LastMinor(b, ms2) == LastMinor(a, ms)
    ensures var (all, last) := (AbsMinors(a, ms), AbsMinors(a, ms)[|ms| - 1]);
            AbsMinors(b, ms2) == all[|ms| - 1 := last.(locals := [reg] + last.locals)]
  {
    var (m, rest) := (ms[|ms| - 1], ms[..|ms| - 1]);
    var m2 := RecordOnOne(a, b, m, off, reg);
    hide RecordsOk, AbsMinor;
    ms2 := rest + [m2];
    assert ms == rest + [m];
    MinorsAgree(a, b, rest, lo, k);
    assert ms2[..|rest|] == rest;
    assert Top(a[..k]) == Top(b[..k]);
    AbsMinorsSnoc(a, rest, m);
    AbsMinorsSnoc(b, rest, m2);
  }

  lemma RecordOnOne(a: seq<Item>, b: seq<Item>, m: MinorIdx, off: nat, reg: nat) returns (m2: MinorIdx)
    requires m.minor < |a| && a[m.minor].cell.MinorCell?
    requires RecordsOk(a, m.records, a[m.minor].cell.minor.offRecords, m.minor, |a|)
    requires b == (a + [Item(off, RecordCell(a[m.minor].cell.minor.offRecords, reg))])
                  [m.minor := Item(a[m.minor].off, MinorCell(a[m.minor].cell.minor.(offRecords := off)))]
    ensures m2 == MinorIdx(m.minor, [|a|] + m.records) && RecordsOk(b, m2.records, off, m.minor, |b|)
    ensures AbsMinor(b, m2) == AbsMinor(a, m).(locals := [reg] + AbsMinor(a, m).locals)
  {
    m2 := MinorIdx(m.minor, [|a|] + m.records);
    RecordsAgree(a, b, m.records, a[m.minor].cell.minor.offRecords, m.minor, |a|);
    assert m2.records[1..] == m.records;
    assert RecordsOk(b, m2.records, off, m.minor, |b|);
    hide RecordsOk;
    assert AbsMinor(b, m2).locals == [reg] + AbsMinor(a, m).locals;
  }

  /** The innermost minor frame goes, with everything above where it was. */
  lemma MinorLeft(a: seq<Item>, fs: seq<FrameIdx>)
    returns (outer: seq<FrameIdx>, f: FrameIdx, k: nat, g: FrameIdx, b: seq<Item>)
    requires FramesOk(a, fs, |a|, SIZE_MAX) && fs != [] && |fs[|fs| - 1].minors| > 1
    ensures fs == outer + [f] && f.major < k < |a| && f.minors[|f.minors| - 1].minor == k && a[k].cell.MinorCell?
    ensures a[k].off == LastMinor(a, f.minors) && a[f.major].cell.MajorCell?
    ensures Top(b) <= a[k].cell.minor.stackBase < a[k].off
    ensures var mf := a[f.major].cell.major;
            b == a[..k][f.major := Item(a[f.major].off, MajorCell(mf.(offCurMinor := a[k].cell.minor.offLast)))]
    ensures g == f.(minors := f.minors[..|f.minors| - 1]) && a[f.major].off == LastMajor(a, fs)
    ensures FramesOk(b, outer + [g], |b|, SIZE_MAX) && LastMajor(b, outer + [g]) == LastMajor(a, fs)
    ensures AbsFrames(a, fs) == AbsFrames(a, outer) + [AbsFrame(a, f)] && |AbsFrame(a, f).minors| == |f.minors|
    ensures AbsFrame(a, f).minors[|f.minors| - 1].base == a[k].cell.minor.stackBase
    ensures AbsFrames(b, outer + [g]) ==
              AbsFrames(a, outer) + [AbsFrame(a, f).(minors := AbsFrame(a, f).minors[..|f.minors| - 1])]
  {
    outer, f := Current(a, fs, SIZE_MAX);
    hide FramesOk, AbsFrames;
    k, g, b := MajorShrinks(a, outer, f);
    hide MajorOk, AbsFrame, LastMinor, Top;
    LastMajorAgree(a, b, outer, f.major);
    Rebuild(a, b, outer, g, SIZE_MAX);
  }

  /** The current frame without its innermost minor frame. */
  lemma MajorShrinks(a: seq<Item>, outer: seq<FrameIdx>, f: FrameIdx) returns (k: nat, g: FrameIdx, b: seq<Item>)
    requires f.major < |a| && a[f.major].cell.MajorCell? && |f.minors| > 1
    requires MajorOk(a, f, a[f.major].cell.major, outer, |a|, SIZE_MAX)
    ensures f.major < k < |a| && f.minors[|f.minors| - 1].minor == k && a[k].cell.MinorCell?
    ensures a[k].off == LastMinor(a, f.minors)
    ensures var mf := a[f.major].cell.major;
            b == a[..k][f.major := Item(a[f.major].off, MajorCell(mf.(offCurMinor := a[k].cell.minor.offLast)))]
    ensures g == f.(minors := f.minors[..|f.minors| - 1]) && Top(b) <= a[k].cell.minor.stackBase < a[k].off
    ensures LastMajor(a, outer) == LastMajor(b, outer) ==> MajorOk(b, g, b[f.major].cell.major, outer, |b|, SIZE_MAX)
    ensures AlikeBetween(a, b, -1, f.major) && a[f.major].off == b[f.major].off
    ensures |AbsFrame(a, f).minors| == |f.minors|
    ensures AbsFrame(a, f).minors[|f.minors| - 1].base == a[k].cell.minor.stackBase
    ensures AbsFrame(b, g) == AbsFrame(a, f).(minors := AbsFrame(a, f).minors[..|f.minors| - 1])
  {
    hide RecordsOk, LastMajor, AbsMinor;
    var (m, rest) := (f.minors[|f.minors| - 1], f.minors[..|f.minors| - 1]);
    k, g := m.minor, f.(minors := rest);
    var mf := a[f.major].cell.major.(offCurMinor := a[k].cell.minor.offLast);
    b := a[..k][f.major := Item(a[f.major].off, MajorCell(mf))];
    MinorsAgree(a, b, rest, f.major, k);
    TopBelow(a, b, f.major);
    assert Top(b) == Top(a[..k]);
    LastBase(a, f.minors);
    hide Top, MinorsOk, LastMinor;
    assert AbsMinors(a, f.minors)[..|rest|] == AbsMinors(a, rest);
  }

  lemma LastBase(a: seq<Item>, ms: seq<MinorIdx>)
    requires ms != []
    ensures |AbsMinors(a, ms)| == |ms| && AbsMinors(a, ms)[|ms| - 1] == AbsMinor(a, ms[|ms| - 1])
    ensures var k := ms[|ms| - 1].minor;
            k < |a| && a[k].cell.MinorCell? ==> AbsMinors(a, ms)[|ms| - 1].base == a[k].cell.minor.stackBase
  {
  }

  /** A plain block's content belongs to no chain. */
  lemma BlockChanged(a: seq<Item>, fs: seq<FrameIdx>, k: nat, cell: Cell)
    requires FramesOk(a, fs, |a|, SIZE_MAX) && k < |a| && a[k].cell.Block? && cell.Block?
    ensures var b := a[k := Item(a[k].off, cell)];
            FramesOk(b, fs, |b|, SIZE_MAX) && LastMajor(b, fs) == LastMajor(a, fs) && AbsFrames(b, fs) ==
                AbsFrames(a, fs)
  {
    FramesAgree(a, a[k := Item(a[k].off, cell)], fs, |a|, SIZE_MAX);
  }

  /** A frame on top of everything: its own cell, its first minor frame, and its register banks. */
  lemma FramePushed(a: seq<Item>, fs: seq<FrameIdx>, mf: MajorFrame, minor: MinorFrame, off: nat, minorOff: nat,
                    banks: seq<Item>)
    returns (g: FrameIdx, b: seq<Item>)
    requires FramesOk(a, fs, |a|, off) && Top(a) <= mf.prevStackTop < off
    requires mf.offNext == SIZE_MAX && mf.offPrev == LastMajor(a, fs) && mf.offCurMinor == minorOff
    requires minor.offLast == SIZE_MAX && minor.offRecords == SIZE_MAX
    ensures g == FrameIdx(|a|, [MinorIdx(|a| + 1, [])])
    ensures b == a + [Item(off, MajorCell(mf)), Item(minorOff, MinorCell(minor))] + banks
    ensures FramesOk(b, fs + [g], |b|, SIZE_MAX) && LastMajor(b, fs + [g]) == off
    ensures AbsFrames(b, fs + [g]) ==
              AbsFrames(a, fs) + [AFrame(mf.prevStackTop, [AMinor(minor.stackBase, [])], mf.data)]
  {
    g := FrameIdx(|a|, [MinorIdx(|a| + 1, [])]);
    b := a + [Item(off, MajorCell(mf)), Item(minorOff, MinorCell(minor))] + banks;
    assert b[..|a|] == a && a[..|a|] == a;
    assert b[|a|] == Item(off, MajorCell(mf)) && b[|a| + 1] == Item(minorOff, MinorCell(minor));
    FramesAgree(a, b, fs, |a|, off);
    hide FramesOk, AbsFrames, LastMajor;
    NewMajor(b, fs, g, mf, minor, |a|);
    hide MajorOk, AbsFrame, Top;
    Rebuild(b, b, fs, g, SIZE_MAX);
  }

  /** A frame with one minor frame and nothing in it. */
  lemma NewMajor(b: seq<Item>, fs: seq<FrameIdx>, g: FrameIdx, mf: MajorFrame, minor: MinorFrame, n: nat)
    requires n + 1 < |b| && g == FrameIdx(n, [MinorIdx(n + 1, [])])
    requires b[n].cell == MajorCell(mf) && b[n + 1].cell == MinorCell(minor)
    requires mf.offNext == SIZE_MAX && mf.offPrev == LastMajor(b, fs) && mf.offCurMinor == b[n + 1].off
    requires Top(b[..n]) <= mf.prevStackTop < b[n].off && minor.offLast == SIZE_MAX && minor.offRecords == SIZE_MAX
    ensures MajorOk(b, g, mf, fs, |b|, SIZE_MAX)
    ensures AbsFrame(b, g) == AFrame(mf.prevStackTop, [AMinor(minor.stackBase, [])], mf.data)
  {
    assert g.minors[..0] == [];
    assert AbsMinor(b, g.minors[0]) == AMinor(minor.stackBase, []);
    assert AbsMinors(b, g.minors) == [AbsMinor(b, g.minors[0])];
  }

  /** The current frame goes, with everything above it. */
  lemma FramePopped(a: seq<Item>, fs: seq<FrameIdx>) returns (outer: seq<FrameIdx>, f: FrameIdx, b: seq<Item>)
    requires FramesOk(a, fs, |a|, SIZE_MAX) && fs != []
    ensures fs == outer + [f] && f.major < |a| && b == a[..f.major] && a[f.major].cell.MajorCell?
    ensures FramesOk(b, outer, |b|, a[f.major].off) && LastMajor(b, outer) == a[f.major].cell.major.offPrev
    ensures a[f.major].cell.major.offNext == SIZE_MAX && Top(b) <= a[f.major].cell.major.prevStackTop < a[f.major].off
    ensures a[f.major].off == LastMajor(a, fs)
    ensures AbsFrames(a, fs) == AbsFrames(b, outer) + [AbsFrame(a, f)]
    ensures AbsFrame(a, f).prevTop == a[f.major].cell.major.prevStackTop
    ensures AbsFrame(a, f).data == a[f.major].cell.major.data
  {
    outer, f := Current(a, fs, SIZE_MAX);
    b := a[..f.major];
    assert b[..f.major] == b;
    FramesAgree(a, b, outer, f.major, a[f.major].off);
  }

  /** A chain of records goes through records only. */
  lemma {:induction false} RecordsKept(a: seq<Item>, b: seq<Item>, rs: seq<nat>, head: nat, lo: nat, hi: nat)
    requires hi <= |a| && hi <= |b| && RecordsOk(a, rs, head, lo, hi)
    requires forall k :: 0 <= k < hi && a[k].cell.RecordCell? ==> b[k] == a[k]
    ensures RecordsOk(b, rs, head, lo, hi)
    ensures forall i :: 0 <= i < |rs| ==> rs[i] < hi && a[rs[i]].cell.RecordCell? && b[rs[i]] == a[rs[i]]
    decreases |rs|
  {
    if rs != [] {
      RecordsKept(a, b, rs[1..], a[rs[0]].cell.offNext, lo, rs[0]);
      forall i | 0 <= i < |rs|
        ensures rs[i] < hi && a[rs[i]].cell.RecordCell? && b[rs[i]] == a[rs[i]]
      {
        if i > 0 {
          assert rs[i] == rs[1..][i - 1];
        }
      }
    }
  }

  /** The innermost minor frame, and the chain of its records. */
  lemma Innermost(items: seq<Item>, fs: seq<FrameIdx>) returns (outer: seq<FrameIdx>, f: FrameIdx, k: nat, rs: seq<nat>)
    requires FramesOk(items, fs, |items|, SIZE_MAX) && fs != []
    requires forall i :: 0 <= i < |items| ==> items[i].off < SIZE_MAX
    ensures fs == outer + [f] && f.minors != [] && k == f.minors[|f.minors| - 1].minor
    ensures rs == f.minors[|f.minors| - 1].records
    ensures f.major < |items| && items[f.major].cell.MajorCell? && k < |items| && items[k].cell.MinorCell?
    ensures items[k].off == items[f.major].cell.major.offCurMinor && items[f.major].off == LastMajor(items, fs)
    ensures items[k].cell.minor.offLast == SIZE_MAX <==> |f.minors| == 1
    ensures RecordsOk(items, rs, items[k].cell.minor.offRecords, k, |items|)
    ensures AbsFrames(items, fs) == AbsFrames(items, outer) + [AbsFrame(items, f)]
    ensures |AbsFrame(items, f).minors| == |f.minors|
    ensures AbsFrame(items, f).minors[|f.minors| - 1] == AMinor(items[k].cell.minor.stackBase, RecordRegs(items, rs))
    ensures AbsFrame(items, f).data == items[f.major].cell.major.data
  {
    outer, f := Current(items, fs, SIZE_MAX);
    k, rs := f.minors[|f.minors| - 1].minor, f.minors[|f.minors| - 1].records;
    if |f.minors| > 1 {
      var rest := f.minors[..|f.minors| - 1];
      assert MinorsOk(items, rest, f.major, k) && LastMinor(items, rest) == items[rest[|rest| - 1].minor].off;
    }
    assert RecordRegs(items, rs) == AbsMinor(items, f.minors[|f.minors| - 1]).locals;
  }

  ghost function RecordRegs(items: seq<Item>, rs: seq<nat>): seq<nat> {
    seq(|rs|, r requires 0 <= r < |rs| => RecordReg(items, rs[r]))
  }

  /** Only the data of the frame below the current one changes. */
  lemma CallerChanged(a: seq<Item>, fs: seq<FrameIdx>, data: FrameData)
    returns (c: nat, k: nat, b: seq<Item>, pre: seq<AFrame>, caller: AFrame, cur: AFrame)
    requires FramesOk(a, fs, |a|, SIZE_MAX) && |fs| > 1
    ensures c < k < |a| && a[k].cell.MajorCell? && a[c].cell.MajorCell?
    ensures a[k].off == LastMajor(a, fs) && a[k].cell.major.offPrev == a[c].off
    ensures b == a[c := Item(a[c].off, MajorCell(a[c].cell.major.(data := data)))]
    ensures FramesOk(b, fs, |b|, SIZE_MAX) && LastMajor(b, fs) == LastMajor(a, fs)
    ensures AbsFrames(a, fs) == pre + [caller, cur] && AbsFrames(b, fs) == pre + [caller.(data := data), cur]
    ensures caller.data == a[c].cell.major.data && cur.data == a[k].cell.major.data && |pre| == |fs| - 2
    ensures caller.data == AbsFrames(a, fs)[|fs| - 2].data && cur.data == AbsFrames(a, fs)[|fs| - 1].data
  {
    hide *;
    var below, f, lower := FramePopped(a, fs);
    var off := a[f.major].off;
    var outer, c1, lower2 := Relinked(lower, below, off, off, data);
    b := lower2 + a[f.major..];
    BelowChanged(a, b, lower2, below, f);
    c, k, pre, caller, cur := c1.major, f.major, AbsFrames(lower, outer), AbsFrame(lower, c1), AbsFrame(a, f);
    AbsLength(lower, outer);
    assert b == a[c := Item(a[c].off, MajorCell(a[c].cell.major.(data := data)))];
  }

  lemma AbsLength(items: seq<Item>, fs: seq<FrameIdx>)
    ensures |AbsFrames(items, fs)| == |fs|
  {
  }

  /** Changed cells below the current frame leave the current frame as it is. */
  lemma BelowChanged(a: seq<Item>, b: seq<Item>, lower: seq<Item>, below: seq<FrameIdx>, f: FrameIdx)
    requires f.major < |a| && |lower| == f.major && b == lower + a[f.major..] && FramesOk(a, below + [f], |a|, SIZE_MAX)
    requires FramesOk(lower, below, f.major, a[f.major].off) && LastMajor(lower, below) == a[f.major].cell.major.offPrev
    requires forall k :: 0 <= k < |lower| ==> lower[k].off == a[k].off
    ensures FramesOk(b, below + [f], |b|, SIZE_MAX) && LastMajor(b, below + [f]) == a[f.major].off
    ensures AbsFrames(b, below + [f]) == AbsFrames(lower, below) + [AbsFrame(a, f)]
  {
    hide *;
    var below1, f1 := Current(a, below + [f], SIZE_MAX);
    SnocInjective(below, f, below1, f1);
    Spread(a, b, lower);
    FramesAgree(lower, b, below, f.major, a[f.major].off);
    MajorMoves(a, b, f, below);
    Rebuild(b, b, below, f, SIZE_MAX);
  }

  lemma Spread(a: seq<Item>, b: seq<Item>, lower: seq<Item>)
    requires |lower| < |a| && b == lower + a[|lower|..]
    requires forall k :: 0 <= k < |lower| ==> lower[k].off == a[k].off
    ensures |b| == |a| && AlikeBetween(lower, b, -1, |lower|) && AlikeBetween(b, b, -1, |lower|)
    ensures forall k :: |lower| <= k < |a| ==> b[k] == a[k]
    ensures forall k :: 0 <= k < |lower| ==> b[k].off == a[k].off
  {
  }

  /** A frame's links and minor frames do not depend on what is below it, but for its caller's offset. */
  lemma MajorMoves(a: seq<Item>, b: seq<Item>, f: FrameIdx, below: seq<FrameIdx>)
    requires f.major < |a| == |b| && a[f.major].cell.MajorCell? && b[f.major] == a[f.major]
    requires MajorOk(a, f, a[f.major].cell.major, below, |a|, SIZE_MAX)
    requires LastMajor(b, below) == a[f.major].cell.major.offPrev
    requires forall k :: f.major <= k < |a| ==> b[k] == a[k]
    requires forall k :: 0 <= k < f.major ==> b[k].off == a[k].off
    ensures MajorOk(b, f, a[f.major].cell.major, below, |b|, SIZE_MAX) && AbsFrame(b, f) == AbsFrame(a, f)
  {
    hide LastMajor;
    MinorsAgree(a, b, f.minors, f.major, |a|);
    assert Top(a[..f.major]) == Top(b[..f.major]);
  }

  lemma SnocInjective(s: seq<FrameIdx>, x: FrameIdx, t: seq<FrameIdx>, y: FrameIdx)
    requires s + [x] == t + [y]
    ensures s == t && x == y
  {
    assert |s + [x]| == |s| + 1 && |t + [y]| == |t| + 1;
    assert (s + [x])[|s|] == x && (t + [y])[|t|] == y;
    assert (s + [x])[..|s|] == s && (t + [y])[..|t|] == t;
  }

  /** The cells of a new frame, as they are allocated. */
  ghost function NewCells(offMajor: nat, major: MajorFrame, offMinor: nat, base: nat, banks: seq<Item>): seq<Item> {
    [Item(offMajor, MajorCell(major)), Item(offMinor, MinorCell(MinorFrame(SIZE_MAX, SIZE_MAX, base)))] + banks
  }

  /** A new frame, linked to its caller both ways; its first minor frame starts where the caller's
      arguments do, and the caller forgets where that was. */
  lemma FrameLinked(a: seq<Item>, fs: seq<FrameIdx>, major: MajorFrame, offMajor: nat, offMinor: nat, banks: seq<Item>)
    returns (c: nat, d: FrameData, g: FrameIdx, b: seq<Item>)
    requires FramesOk(a, fs, |a|, SIZE_MAX) && fs != [] && Top(a) <= major.prevStackTop < offMajor
    requires major.offNext == SIZE_MAX && major.offPrev == LastMajor(a, fs) && major.offCurMinor == offMinor
    ensures c < |a| && a[c].cell.MajorCell? && a[c].off == LastMajor(a, fs) && d == a[c].cell.major.data
    ensures var mf := a[c].cell.major.(offNext := offMajor, data := d.(offNextArgsBegin := SIZE_MAX));
            var cells := a + NewCells(offMajor, major, offMinor, d.offNextArgsBegin, banks);
            b == cells[c := Item(a[c].off, MajorCell(mf))]
    ensures FramesOk(b, fs + [g], |b|, SIZE_MAX) && LastMajor(b, fs + [g]) == offMajor
    ensures |AbsFrames(a, fs)| == |fs| && AbsFrames(a, fs)[|fs| - 1].data == d
    ensures AbsFrames(b, fs + [g]) == WithData(AbsFrames(a, fs), d.(offNextArgsBegin := SIZE_MAX))
                                      + [AFrame(major.prevStackTop, [AMinor(d.offNextArgsBegin, [])], major.data)]
  {
    hide FramesOk, AbsFrames, LastMajor, Top;
    var outer0, f0 := Current(a, fs, SIZE_MAX);
    d := a[f0.major].cell.major.data;
    var outer, f, a2 := Relinked(a, fs, SIZE_MAX, offMajor, d.(offNextArgsBegin := SIZE_MAX));
    c := f.major;
    SameTop(a, a2, c);
    AbsLength(a, fs);
    g, b := FramePushed(a2, fs, major, MinorFrame(SIZE_MAX, SIZE_MAX, d.offNextArgsBegin), offMajor, offMinor, banks);
    assert b == (a + NewCells(offMajor, major, offMinor, d.offNextArgsBegin, banks))[c := a2[c]];
    assert AbsFrames(a2, fs) == WithData(AbsFrames(a, fs), d.(offNextArgsBegin := SIZE_MAX));
  }

  /** The outermost frame, linked to nothing. */
  lemma FirstLinked(a: seq<Item>, major: MajorFrame, offMajor: nat, offMinor: nat, banks: seq<Item>)
    returns (g: FrameIdx, b: seq<Item>)
    requires Top(a) <= major.prevStackTop < offMajor && major.offNext == major.offPrev == SIZE_MAX
    requires major.offCurMinor == offMinor
    ensures b == a + NewCells(offMajor, major, offMinor, major.prevStackTop, banks)
    ensures FramesOk(b, [g], |b|, SIZE_MAX) && LastMajor(b, [g]) == offMajor
    ensures AbsFrames(b, [g]) == [AFrame(major.prevStackTop, [AMinor(major.prevStackTop, [])], major.data)]
  {
    g, b := FramePushed(a, [], major, MinorFrame(SIZE_MAX, SIZE_MAX, major.prevStackTop), offMajor, offMinor, banks);
    hide AbsFrame, MajorOk;
    assert [] + [g] == [g];
    assert b == a + NewCells(offMajor, major, offMinor, major.prevStackTop, banks);
  }

  lemma SameTop(a: seq<Item>, b: seq<Item>, k: nat)
    requires k < |a| == |b| && b == a[k := b[k]] && b[k].off == a[k].off
    ensures Top(a) == Top(b)
  {
  }

  /** Unlinking the current frame, the k-th cell, from its caller, the c-th, and dropping it. */
  lemma FrameUnlinked(a: seq<Item>, fs: seq<FrameIdx>) returns (k: nat, c: nat, outer: seq<FrameIdx>, b: seq<Item>)
    requires FramesOk(a, fs, |a|, SIZE_MAX) && fs != [] && forall i :: 0 <= i < |a| ==> a[i].off < SIZE_MAX
    ensures k < |a| && a[k].cell.MajorCell? && a[k].off == LastMajor(a, fs) && a[k].cell.major.offNext == SIZE_MAX
    ensures a[k].cell.major.offPrev == LastMajor(b, outer) && (a[k].cell.major.offPrev == SIZE_MAX <==> outer == [])
    ensures outer == [] ==> b == a[..k]
    ensures outer != [] ==> c < k && a[c].cell.MajorCell? && a[c].off == a[k].cell.major.offPrev
    ensures outer != [] ==> b == a[c := Item(a[c].off, MajorCell(a[c].cell.major.(offNext := SIZE_MAX)))][..k]
    ensures fs != [] && outer == fs[..|fs| - 1]
    ensures FramesOk(b, outer, |b|, SIZE_MAX) && Top(b) <= a[k].cell.major.prevStackTop < a[k].off
    ensures |AbsFrames(a, fs)| == |fs| && AbsFrames(b, outer) == AbsFrames(a, fs)[..|fs| - 1]
    ensures AbsFrames(a, fs)[|fs| - 1].prevTop == a[k].cell.major.prevStackTop
  {
    hide MajorOk, AbsFrames, AbsFrame, Top, LastMinor;
    var f: FrameIdx;
    outer, f, b := FramePopped(a, fs);
    k, c := f.major, 0;
    AbsLength(a, fs);
    if outer != [] {
      var outer0, c0 := Current(b, outer, a[k].off);
      var lower, outer1, c1 := b, outer0, c0;
      outer1, c1, b := Relinked(lower, outer, a[k].off, SIZE_MAX, lower[c0.major].cell.major.data);
      c := c1.major;
      SnocInjective(outer0, c0, outer1, c1);
      SameTop(lower, b, c);
      assert AbsFrame(lower, c1).data == lower[c].cell.major.data;
      assert AbsFrames(b, outer) == AbsFrames(lower, outer);
      assert b == a[c := b[c]][..k];
    }
  }
}
