/** When the table of merged frames, whose keys are function, depth and end time, shows
    what the merge computed. */
module FlowTable {
  import opened Flow

  ghost predicate SameKey(f: Frame, g: Frame) { f.path != [] && g.path != [] && NodeKey(f) == NodeKey(g) }

  ghost predicate Named(fs: seq<Frame>) { forall f :: f in fs ==> f.path != [] }

  ghost predicate DistinctKeys(fs: seq<Frame>)
  {
    Named(fs) && forall i, j :: 0 <= i < j < |fs| ==> !SameKey(fs[i], fs[j])
  }

  /** Some frame is stored over an earlier one; if `visible`, over one with a width. */
  ghost predicate Overwrites(fs: seq<Frame>, visible: bool)
  {
    exists i, j :: 0 <= i < j < |fs| && SameKey(fs[i], fs[j]) && (visible ==> fs[i].start < fs[i].end)
  }

  // ----- frames by line and depth -----

  /** The stack of line `a`, with the root; empty behind the last line. */
  ghost function Full(ls: seq<Line>, a: nat): Stack { if a < |ls| then [""] + ls[a].stack else [] }

  ghost function Total(ls: seq<Line>, n: nat): real
    requires n <= |ls|
  {
    if n == 0 then 0.0 else Total(ls, n - 1) + ls[n - 1].samples
  }

  /** The frame at depth `d` of line `a` ends with that line. */
  ghost predicate Closes(ls: seq<Line>, a: nat, d: nat)
  {
    a < |ls| && Common(Full(ls, a), Full(ls, a + 1)) <= d < |Full(ls, a)|
  }

  /** The samples of line `a` and of the lines just before it that share its frame at depth `d`. */
  ghost function RunWidth(ls: seq<Line>, a: nat, d: nat): real
    requires a < |ls|
  {
    ls[a].samples + if a > 0 && d < Common(Full(ls, a - 1), Full(ls, a)) then RunWidth(ls, a - 1, d) else 0.0
  }

  ghost function FrameAt(ls: seq<Line>, a: nat, d: nat): Frame
    requires a < |ls| && d < |Full(ls, a)|
  {
    Frame(Full(ls, a)[..d + 1], Total(ls, a + 1) - RunWidth(ls, a, d), Total(ls, a + 1))
  }

  ghost function Empty(): Merge { Merge([], [], [], 0.0) }

  /** The merge after line `a`. */
  ghost function Upto(ls: seq<Line>, a: nat): (m: Merge)
    requires a < |ls|
    ensures Shaped(m)
  {
    Advance(if a == 0 then Empty() else Upto(ls, a - 1), ls[a])
  }

  lemma {:induction false} MergeStep(p: seq<Line>)
    requires p != []
    ensures MergeAll(p) == Advance(MergeAll(p[..|p| - 1]), p[|p| - 1])
  {
  }

  lemma {:induction false} UptoIsMerge(ls: seq<Line>, a: nat)
    requires a < |ls|
    ensures Upto(ls, a) == MergeAll(ls[..a + 1])
  {
    MergeStep(ls[..a + 1]);
    assert ls[..a + 1][..a] == ls[..a] && ls[..a + 1][a] == ls[a];
    if a == 0 { assert ls[..a] == []; } else { UptoIsMerge(ls, a - 1); }
  }

  lemma {:induction false} UptoIs(ls: seq<Line>, a: nat)
    requires a < |ls|
    ensures Upto(ls, a).last == Full(ls, a) && Upto(ls, a).time == Total(ls, a + 1)
  {
    if a > 0 { UptoIs(ls, a - 1); }
  }

  /** One more line: a shared frame grows by its samples, any other frame begins with it. */
  lemma {:induction false} AdvanceStart(m: Merge, l: Line, s: Stack, d: nat, w: real)
    requires Shaped(m) && s == [""] + l.stack && d < |s|
    requires d < Common(m.last, s) ==> m.starts[d] == m.time - w
    ensures var m' := Advance(m, l);
            |m'.starts| == |s| && m'.starts[d] == m'.time - (l.samples + if d < Common(m.last, s) then w else 0.0)
  {
  }

  lemma {:induction false} UptoStart(ls: seq<Line>, a: nat, d: nat)
    requires a < |ls| && d < |Full(ls, a)|
    ensures |Upto(ls, a).starts| == |Full(ls, a)| && Upto(ls, a).starts[d] == Upto(ls, a).time - RunWidth(ls, a, d)
  {
    if a == 0 {
      AdvanceStart(Empty(), ls[a], Full(ls, a), d, 0.0);
    } else {
      var m, w := Upto(ls, a - 1), RunWidth(ls, a - 1, d);
      assert m.last == Full(ls, a - 1) by { UptoIs(ls, a - 1); }
      if d < Common(m.last, Full(ls, a)) { UptoStart(ls, a - 1, d); }
      AdvanceStart(m, ls[a], Full(ls, a), d, w);
    }
  }

  /** The frames that end with line `a`. */
  ghost function ClosedBy(ls: seq<Line>, a: nat): seq<Frame>
    requires a < |ls|
  {
    var m := Upto(ls, a);
    Closed(m.last, m.starts, Common(m.last, Full(ls, a + 1)), m.time)
  }

  ghost function Flat(cs: seq<seq<Frame>>, n: nat): seq<Frame>
    requires n <= |cs|
  {
    if n == 0 then [] else Flat(cs, n - 1) + cs[n - 1]
  }

  lemma {:induction false} SwitchFrames(m: Merge, s: Stack)
    requires Shaped(m)
    ensures Switch(m, s).frames == m.frames + Closed(m.last, m.starts, Common(m.last, s), m.time)
  {
  }

  lemma {:induction false} AdvanceFrames(m: Merge, l: Line)
    requires Shaped(m)
    ensures Advance(m, l).frames == m.frames + Closed(m.last, m.starts, Common(m.last, [""] + l.stack), m.time)
  {
  }

  /** `cs` lists for each line the frames that end with it. */
  ghost predicate Listed(ls: seq<Line>, cs: seq<seq<Frame>>)
  {
    |cs| == |ls| && forall a :: 0 <= a < |cs| ==> cs[a] == ClosedBy(ls, a)
  }

  lemma {:induction false} ClosedSoFar(ls: seq<Line>, cs: seq<seq<Frame>>, a: nat)
    requires a < |ls| && Listed(ls, cs)
    ensures Upto(ls, a).frames == Flat(cs, a)
  {
    AdvanceFrames(if a == 0 then Empty() else Upto(ls, a - 1), ls[a]);
    if a > 0 {
      ClosedSoFar(ls, cs, a - 1);
      assert cs[a - 1] == ClosedBy(ls, a - 1);
    }
  }

  lemma {:induction false} FinishedFrames(ls: seq<Line>, cs: seq<seq<Frame>>)
    requires Listed(ls, cs)
    ensures Finished(ls).frames == Flat(cs, |ls|)
  {
    if ls == [] {
      assert Finished(ls).frames == [] + Closed([], [], 0, 0.0);
    } else {
      var a := |ls| - 1;
      assert MergeAll(ls) == Upto(ls, a) by {
        UptoIsMerge(ls, a);
        assert ls[..a + 1] == ls;
      }
      SwitchFrames(Upto(ls, a), []);
      ClosedSoFar(ls, cs, a);
      assert Flat(cs, |ls|) == Flat(cs, a) + cs[a];
    }
  }

  ghost predicate IsFrameAt(ls: seq<Line>, a: nat, d: nat, f: Frame) { Closes(ls, a, d) && f == FrameAt(ls, a, d) }

  lemma {:induction false} FrameInClosedBy(ls: seq<Line>, a: nat, f: Frame) returns (d: nat)
    requires a < |ls| && f in ClosedBy(ls, a)
    ensures IsFrameAt(ls, a, d, f)
  {
    UptoIs(ls, a);
    var m := Upto(ls, a);
    d := ClosedMember(m.last, m.starts, Common(m.last, Full(ls, a + 1)), m.time, f);
    UptoStart(ls, a, d);
  }

  lemma {:induction false} ClosedByHas(ls: seq<Line>, a: nat, d: nat, f: Frame)
    requires IsFrameAt(ls, a, d, f)
    ensures f in ClosedBy(ls, a)
  {
    var m, k := Upto(ls, a), Common(Full(ls, a), Full(ls, a + 1));
    UptoIs(ls, a);
    UptoStart(ls, a, d);
    assert f == Frame(m.last[..d + 1], m.starts[d], m.time);
    ClosedHas(m.last, m.starts, k, m.time, d);
  }

  lemma {:induction false} DistinctInLine(ls: seq<Line>, a: nat)
    requires a < |ls|
    ensures DistinctKeys(ClosedBy(ls, a))
  {
    UptoIs(ls, a);
    var m := Upto(ls, a);
    ClosedAt(m.last, m.starts, Common(m.last, Full(ls, a + 1)), m.time);
  }

  /** `c` holds the frames that end with line `a`, one for each depth. */
  ghost predicate Ended(ls: seq<Line>, a: nat, c: seq<Frame>)
  {
    && DistinctKeys(c)
    && (forall f :: f in c ==> exists d: nat :: IsFrameAt(ls, a, d, f))
    && (forall f, d: nat :: IsFrameAt(ls, a, d, f) ==> f in c)
  }

  ghost predicate AllEnded(ls: seq<Line>, cs: seq<seq<Frame>>)
  {
    |cs| == |ls| && forall a :: 0 <= a < |cs| ==> Ended(ls, a, cs[a])
  }

  lemma {:induction false} LineEnded(ls: seq<Line>, a: nat, c: seq<Frame>)
    requires a < |ls| && c == ClosedBy(ls, a)
    ensures Ended(ls, a, c)
  {
    DistinctInLine(ls, a);
    forall f | f in c
      ensures exists d: nat :: IsFrameAt(ls, a, d, f)
    {
      var d := FrameInClosedBy(ls, a, f);
    }
    forall f, d: nat | IsFrameAt(ls, a, d, f)
      ensures f in c
    {
      ClosedByHas(ls, a, d, f);
    }
  }

  /** The frames of the merge, line by line. */
  lemma {:induction false} ByLine(ls: seq<Line>) returns (cs: seq<seq<Frame>>)
    ensures AllEnded(ls, cs) && Finished(ls).frames == Flat(cs, |ls|)
  {
    cs := seq(|ls|, a requires 0 <= a < |ls| => ClosedBy(ls, a));
    FinishedFrames(ls, cs);
    forall a | 0 <= a < |ls|
      ensures Ended(ls, a, cs[a])
    {
      LineEnded(ls, a, cs[a]);
    }
  }

  lemma {:induction false} InFlat(cs: seq<seq<Frame>>, n: nat, f: Frame)
    requires n <= |cs|
    ensures f in Flat(cs, n) <==> exists a :: 0 <= a < n && f in cs[a]
  {
    if n > 0 { InFlat(cs, n - 1, f); }
  }

  lemma {:induction false} FlatHas(ls: seq<Line>, cs: seq<seq<Frame>>, n: nat, a: nat, d: nat, f: Frame)
    requires AllEnded(ls, cs) && a < n <= |ls| && IsFrameAt(ls, a, d, f)
    ensures f in Flat(cs, n)
  {
    assert Ended(ls, a, cs[a]);
    InFlat(cs, n, f);
  }

  // ----- equal keys -----

  /** Lines `a` and `b` end frames of the same function at the same depth, with no samples
      after line `a`. */
  ghost predicate Clash(ls: seq<Line>, a: nat, b: nat, d: nat)
  {
    && a < b && Closes(ls, a, d) && Closes(ls, b, d) && Full(ls, a)[d] == Full(ls, b)[d]
    && forall c :: a < c <= b ==> ls[c].samples == 0.0
  }

  /** If `visible`, the frame that ends with line `a` has samples. */
  ghost predicate Clashes(ls: seq<Line>, n: nat, visible: bool)
  {
    exists a: nat, b: nat, d: nat :: b < n && Clash(ls, a, b, d) && (visible ==> RunWidth(ls, a, d) > 0.0)
  }

  /** No samples lie between two lines exactly when their counts are zero. */
  lemma {:induction false} TotalIff(ls: seq<Line>, a: nat, b: nat)
    requires NonNegative(ls) && a <= b < |ls|
    ensures Total(ls, a + 1) <= Total(ls, b + 1)
    ensures Total(ls, a + 1) == Total(ls, b + 1) <==> forall c :: a < c <= b ==> ls[c].samples == 0.0
  {
    if a < b { TotalIff(ls, a, b - 1); }
  }

  lemma {:induction false} KeyOf(ls: seq<Line>, a: nat, d: nat)
    requires Closes(ls, a, d)
    ensures FrameAt(ls, a, d).path != [] && NodeKey(FrameAt(ls, a, d)) == (Full(ls, a)[d], d, Total(ls, a + 1))
  {
  }

  lemma {:induction false} KeyIff(ls: seq<Line>, a: nat, d: nat, b: nat, e: nat)
    requires NonNegative(ls) && a < b && Closes(ls, a, d) && Closes(ls, b, e)
    ensures SameKey(FrameAt(ls, a, d), FrameAt(ls, b, e)) <==> d == e && Clash(ls, a, b, d)
  {
    KeyOf(ls, a, d);
    KeyOf(ls, b, e);
    TotalIff(ls, a, b);
  }

  lemma {:induction false} RootSamples(ls: seq<Line>, p: Stack -> bool)
    requires p([""])
    ensures Samples(ls, 0, p) == Total(ls, |ls|)
  {
    if ls != [] {
      var n := |ls| - 1;
      RootSamples(ls[..n], p);
      TotalPrefix(ls, n, n);
      assert ([""] + ls[n].stack)[..1] == [""];
    }
  }

  lemma {:induction false} TotalPrefix(ls: seq<Line>, k: nat, n: nat)
    requires n <= k <= |ls|
    ensures Total(ls[..k], n) == Total(ls, n)
  {
    if n > 0 { TotalPrefix(ls, k, n - 1); }
  }

  /** The frames of the empty name at the root span all samples. */
  lemma {:induction false} RootSpansAll(ls: seq<Line>)
    ensures Width(Finished(ls).frames, 0, (s: Stack) => s == [""]) == Total(ls, |ls|)
  {
    FramesConserveSamples(ls, 0, (s: Stack) => s == [""]);
    RootSamples(ls, (s: Stack) => s == [""]);
  }

  lemma {:induction false} FlatPrefix(cs: seq<seq<Frame>>, n: nat, m: nat)
    requires n <= m <= |cs|
    ensures |Flat(cs, n)| <= |Flat(cs, m)| && Flat(cs, n) == Flat(cs, m)[..|Flat(cs, n)|]
  {
    if n < m { FlatPrefix(cs, n, m - 1); }
  }

  lemma {:induction false} InOrderOfLines(cs: seq<seq<Frame>>, b: nat, n: nat, f: Frame, g: Frame) returns (i: nat,
                                          j: nat)
    requires b < n <= |cs| && f in Flat(cs, b) && g in cs[b]
    ensures i < j < |Flat(cs, n)| && Flat(cs, n)[i] == f && Flat(cs, n)[j] == g
  {
    var p, q := Flat(cs, b), Flat(cs, b + 1);
    i :| 0 <= i < |p| && p[i] == f;
    var h :| 0 <= h < |cs[b]| && cs[b][h] == g;
    j := |p| + h;
    assert q == p + cs[b] && q[i] == f && q[j] == g;
    FlatPrefix(cs, b + 1, n);
    assert Flat(cs, n)[..|q|][i] == f && Flat(cs, n)[..|q|][j] == g;
  }

  /** Clashing lines end frames with the same key. */
  lemma {:induction false} ClashMeets(ls: seq<Line>, cs: seq<seq<Frame>>, a: nat, b: nat, d: nat) returns (i: nat,
                                      j: nat)
    requires NonNegative(ls) && AllEnded(ls, cs) && Clash(ls, a, b, d)
    ensures var fs := Flat(cs, |ls|);
            i < j < |fs| && fs[i] == FrameAt(ls, a, d) && fs[j] == FrameAt(ls, b, d) && SameKey(fs[i], fs[j])
  {
    var f, g := FrameAt(ls, a, d), FrameAt(ls, b, d);
    FlatHas(ls, cs, b, a, d, f);
    assert Ended(ls, b, cs[b]) && IsFrameAt(ls, b, d, g);
    i, j := InOrderOfLines(cs, b, |ls|, f, g);
    KeyIff(ls, a, d, b, d);
  }

  /** The line of a frame. */
  lemma {:induction false} LineOf(cs: seq<seq<Frame>>, n: nat, i: nat) returns (a: nat, h: nat)
    requires n <= |cs| && i < |Flat(cs, n)|
    ensures a < n && h < |cs[a]| && i == |Flat(cs, a)| + h && Flat(cs, n)[i] == cs[a][h]
  {
    var p := Flat(cs, n - 1);
    if i < |p| {
      a, h := LineOf(cs, n - 1, i);
    } else {
      a, h := n - 1, i - |p|;
    }
  }

  lemma {:induction false} LaterLine(cs: seq<seq<Frame>>, a: nat, h: nat, b: nat, g: nat)
    requires a < |cs| && b < |cs| && h < |cs[a]| && g < |cs[b]| && |Flat(cs, a)| + h < |Flat(cs, b)| + g
    ensures a < b || (a == b && h < g)
  {
    if b < a { FlatPrefix(cs, b + 1, a); }
  }

  /** Frames with the same key end with clashing lines. */
  lemma {:induction false} MeetingClashes(ls: seq<Line>, cs: seq<seq<Frame>>, i: nat, j: nat) returns (a: nat,
                                          b: nat, d: nat)
    requires NonNegative(ls) && AllEnded(ls, cs)
    requires i < j < |Flat(cs, |ls|)| && SameKey(Flat(cs, |ls|)[i], Flat(cs, |ls|)[j])
    ensures Clash(ls, a, b, d) && b < |ls| && Flat(cs, |ls|)[i] == FrameAt(ls, a, d)
  {
    var h, g;
    var e: nat;
    a, h := LineOf(cs, |ls|, i);
    b, g := LineOf(cs, |ls|, j);
    LaterLine(cs, a, h, b, g);
    assert Ended(ls, a, cs[a]) && Ended(ls, b, cs[b]);
    assert a < b;
    assert cs[a][h] in cs[a] && cs[b][g] in cs[b];
    d :| IsFrameAt(ls, a, d, cs[a][h]);
    e :| IsFrameAt(ls, b, e, cs[b][g]);
    KeyIff(ls, a, d, b, e);
  }

  lemma {:induction false} OverwritesIff(ls: seq<Line>, cs: seq<seq<Frame>>, visible: bool)
    requires NonNegative(ls) && AllEnded(ls, cs)
    ensures Overwrites(Flat(cs, |ls|), visible) <==> Clashes(ls, |ls|, visible)
  {
    var fs := Flat(cs, |ls|);
    if i: nat, j: nat :| i < j < |fs| && SameKey(fs[i], fs[j]) && (visible ==> fs[i].start < fs[i].end) {
      var a, b, d := MeetingClashes(ls, cs, i, j);
    }
    if a: nat, b: nat, d: nat :| b < |ls| && Clash(ls, a, b, d) && (visible ==> RunWidth(ls, a, d) > 0.0) {
      var i, j := ClashMeets(ls, cs, a, b, d);
    }
  }

  lemma {:induction false} AllNamed(ls: seq<Line>, cs: seq<seq<Frame>>, n: nat)
    requires AllEnded(ls, cs) && n <= |ls|
    ensures Named(Flat(cs, n))
  {
    if n > 0 {
      AllNamed(ls, cs, n - 1);
      assert Ended(ls, n - 1, cs[n - 1]);
    }
  }

  /** No two frames share a key if and only if no two lines clash. */
  lemma {:induction false} KeysUniqueIff(ls: seq<Line>)
    requires NonNegative(ls)
    ensures Named(Finished(ls).frames) && (DistinctKeys(Finished(ls).frames) <==> !Clashes(ls, |ls|, false))
  {
    var cs := ByLine(ls);
    AllNamed(ls, cs, |ls|);
    OverwritesIff(ls, cs, false);
  }

  /** Positive counts are enough. */
  lemma {:induction false} PositiveNeverClashes(ls: seq<Line>)
    requires forall i :: 0 <= i < |ls| ==> ls[i].samples > 0.0
    ensures !Clashes(ls, |ls|, false)
  {
    forall a: nat, b: nat, d: nat | b < |ls|
      ensures !Clash(ls, a, b, d)
    {
      assert a < b ==> ls[b].samples > 0.0;
    }
  }

  // ----- what the table holds -----

  /** The value under a key is the start of the last frame stored there. */
  lemma {:induction false} LastStored(fs: seq<Frame>, i: nat)
    requires Named(fs) && i < |fs| && forall j :: i < j < |fs| ==> !SameKey(fs[i], fs[j])
    ensures NodeKey(fs[i]) in Recorded(map[], fs) && Recorded(map[], fs)[NodeKey(fs[i])] == fs[i].start
  {
    var n := |fs| - 1;
    assert fs[n] in fs && fs[i] in fs;
    if i < n {
      assert fs[..n][i] == fs[i];
      LastStored(fs[..n], i);
    }
  }

  lemma {:induction false} StoredBy(fs: seq<Frame>, k: (string, nat, real)) returns (i: nat)
    requires Named(fs) && k in Recorded(map[], fs)
    ensures i < |fs| && NodeKey(fs[i]) == k && Recorded(map[], fs)[k] == fs[i].start
    ensures forall j :: i < j < |fs| ==> NodeKey(fs[j]) != k
  {
    var n := |fs| - 1;
    assert fs[n] in fs;
    if k == NodeKey(fs[n]) {
      i := n;
    } else {
      i := StoredBy(fs[..n], k);
    }
  }

  /** If no lines clash, the final table lists exactly the frames, each under its own key. */
  lemma {:induction false} TableIsExact(ls: seq<Line>)
    requires NonNegative(ls) && !Clashes(ls, |ls|, false)
    ensures var fs := Finished(ls).frames;
            && DistinctKeys(fs)
            && (forall i :: 0 <= i < |fs| ==>
                  NodeKey(fs[i]) in Recorded(map[], fs) && Recorded(map[], fs)[NodeKey(fs[i])] == fs[i].start)
            && (forall k :: k in Recorded(map[], fs) ==> exists f :: f in fs && NodeKey(f) == k)
  {
    KeysUniqueIff(ls);
    var fs := Finished(ls).frames;
    forall i | 0 <= i < |fs|
      ensures NodeKey(fs[i]) in Recorded(map[], fs) && Recorded(map[], fs)[NodeKey(fs[i])] == fs[i].start
    {
      LastStored(fs, i);
    }
    forall k | k in Recorded(map[], fs)
      ensures exists f :: f in fs && NodeKey(f) == k
    {
      var i := StoredBy(fs, k);
      assert fs[i] in fs;
    }
  }

  // ----- widths in the table -----

  /** What an entry adds to the width of a function at a depth. */
  ghost function Part(k: (string, nat, real), start: real, func: string, d: nat): real
  {
    if k.0 == func && k.1 == d then k.2 - start else 0.0
  }

  /** The widths of the entries for a function at a depth, added up. */
  ghost function TableWidth(ns: Nodes, func: string, d: nat): real
    decreases |ns|
  {
    if ns == map[] then 0.0 else
    var k :| k in ns;
    Part(k, ns[k], func, d) + TableWidth(ns - {k}, func, d)
  }

  lemma {:induction false} TakeOut(ns: Nodes, k: (string, nat, real), func: string, d: nat)
    requires k in ns
    ensures TableWidth(ns, func, d) == Part(k, ns[k], func, d) + TableWidth(ns - {k}, func, d)
    decreases |ns|
  {
    var h :| h in ns && TableWidth(ns, func, d) == Part(h, ns[h], func, d) + TableWidth(ns - {h}, func, d);
    if h != k {
      TakeOut(ns - {h}, k, func, d);
      TakeOut(ns - {k}, h, func, d);
      assert ns - {h} - {k} == ns - {k} - {h};
    }
  }

  /** What storing one more frame overwrites. */
  ghost function Hidden(ns: Nodes, k: (string, nat, real), func: string, d: nat): real
  {
    if k in ns then Part(k, ns[k], func, d) else 0.0
  }

  lemma {:induction false} PutIn(ns: Nodes, k: (string, nat, real), v: real, func: string, d: nat)
    ensures TableWidth(ns[k := v], func, d) == TableWidth(ns, func, d) - Hidden(ns, k, func, d) + Part(k, v, func, d)
  {
    var ns' := ns[k := v];
    TakeOut(ns', k, func, d);
    if k in ns {
      TakeOut(ns, k, func, d);
      assert ns' - {k} == ns - {k};
    } else {
      assert ns' - {k} == ns;
    }
  }

  /** The width of everything that was overwritten. */
  ghost function Lost(fs: seq<Frame>, func: string, d: nat): real
    requires Named(fs)
  {
    if fs == [] then 0.0 else
    var n := |fs| - 1;
    Lost(fs[..n], func, d) + Hidden(Recorded(map[], fs[..n]), NodeKey(fs[n]), func, d)
  }

  /** Paths that end in a function. */
  ghost function Ends(func: string): Stack -> bool { s => s != [] && s[|s| - 1] == func }

  lemma {:induction false} WidthMore(fs: seq<Frame>, f: Frame, func: string, d: nat)
    requires f.path != []
    ensures Width(fs + [f], d, Ends(func)) == Width(fs, d, Ends(func)) + Part(NodeKey(f), f.start, func, d)
  {
    WidthConcat(fs, [f], d, Ends(func));
    assert [f][1..] == [];
  }

  lemma {:induction false} TableLoses(fs: seq<Frame>, func: string, d: nat)
    requires Named(fs)
    ensures TableWidth(Recorded(map[], fs), func, d) == Width(fs, d, Ends(func)) - Lost(fs, func, d)
  {
    if fs != [] {
      var n := |fs| - 1;
      assert fs == fs[..n] + [fs[n]] && fs[n] in fs;
      TableLoses(fs[..n], func, d);
      WidthMore(fs[..n], fs[n], func, d);
      PutIn(Recorded(map[], fs[..n]), NodeKey(fs[n]), fs[n].start, func, d);
    }
  }

  ghost predicate Timely(fs: seq<Frame>) { Named(fs) && forall f :: f in fs ==> f.start <= f.end }

  lemma {:induction false} HiddenIs(fs: seq<Frame>, k: (string, nat, real), func: string, d: nat)
    requires Timely(fs)
    ensures Hidden(Recorded(map[], fs), k, func, d) >= 0.0
  {
    if k in Recorded(map[], fs) {
      var i := StoredBy(fs, k);
      assert fs[i] in fs;
    }
  }

  lemma {:induction false} LostIs(fs: seq<Frame>, func: string, d: nat)
    requires Timely(fs)
    ensures Lost(fs, func, d) >= 0.0
  {
    if fs != [] {
      var n := |fs| - 1;
      LostIs(fs[..n], func, d);
      HiddenIs(fs[..n], NodeKey(fs[n]), func, d);
    }
  }

  /** An overwritten frame with a width is missing from the width of its function. */
  lemma {:induction false} OverwrittenIsLost(fs: seq<Frame>, i: nat, j: nat)
    requires Timely(fs) && i < j < |fs| && SameKey(fs[i], fs[j]) && fs[i].start < fs[i].end
    ensures Lost(fs, NodeKey(fs[i]).0, NodeKey(fs[i]).1) > 0.0
    decreases |fs|
  {
    var n := |fs| - 1;
    var p, k := fs[..n], NodeKey(fs[i]);
    assert fs[n] in fs && p[i] == fs[i];
    HiddenIs(p, NodeKey(fs[n]), k.0, k.1);
    LostIs(p, k.0, k.1);
    if h: nat :| i < h < n && SameKey(p[i], p[h]) {
      OverwrittenIsLost(p, i, h);
    } else {
      assert forall h :: i < h < n ==> p[h] == fs[h];
      LastStored(p, i);
    }
  }

  lemma {:induction false} NothingLost(fs: seq<Frame>, func: string, d: nat)
    requires Timely(fs) && !Overwrites(fs, true)
    ensures Lost(fs, func, d) == 0.0
  {
    if fs != [] {
      var n := |fs| - 1;
      var p, k := fs[..n], NodeKey(fs[n]);
      assert fs[n] in fs;
      PrefixClean(fs, n);
      NothingLost(p, func, d);
      if k in Recorded(map[], p) {
        var i := StoredBy(p, k);
        assert p[i] == fs[i] && fs[i] in fs && SameKey(fs[i], fs[n]);
      }
    }
  }

  lemma {:induction false} PrefixClean(fs: seq<Frame>, n: nat)
    requires n <= |fs| && Timely(fs) && !Overwrites(fs, true)
    ensures Timely(fs[..n]) && !Overwrites(fs[..n], true)
  {
    var p := fs[..n];
    forall i, j | 0 <= i < j < |p| && SameKey(p[i], p[j])
      ensures p[i].start >= p[i].end
    {
      assert p[i] == fs[i] && p[j] == fs[j];
    }
  }

  lemma {:induction false} FramesTimely(ls: seq<Line>)
    requires NonNegative(ls)
    ensures Timely(Finished(ls).frames)
  {
    FramesDisjointAndNested(ls);
    var fs := Finished(ls).frames;
    forall f | f in fs
      ensures f.path != [] && f.start <= f.end
    {
      var i :| 0 <= i < |fs| && fs[i] == f;
    }
  }

  /** The table of merged frames at the end. */
  ghost function Table(ls: seq<Line>): Nodes
    requires NonNegative(ls)
  {
    FramesTimely(ls);
    Recorded(map[], Finished(ls).frames)
  }

  /** For each function and depth, the widths in the table are the samples less what was
      overwritten, so never more. */
  lemma {:induction false} TableIsSamplesLessLost(ls: seq<Line>, func: string, d: nat)
    requires NonNegative(ls)
    ensures Named(Finished(ls).frames)
    ensures TableWidth(Table(ls), func, d) == Samples(ls, d, Ends(func)) - Lost(Finished(ls).frames, func, d)
    ensures TableWidth(Table(ls), func, d) <= Samples(ls, d, Ends(func))
  {
    FramesTimely(ls);
    TableLoses(Finished(ls).frames, func, d);
    FramesConserveSamples(ls, d, Ends(func));
    LostIs(Finished(ls).frames, func, d);
  }

  ghost predicate Shows(ls: seq<Line>, func: string, d: nat)
    requires NonNegative(ls)
  {
    TableWidth(Table(ls), func, d) == Samples(ls, d, Ends(func))
  }

  /** The table shows the samples of every function at every depth if and only if no line
      clashes with an earlier one that ends a frame with samples. */
  lemma {:induction false} TableShowsSamplesIff(ls: seq<Line>)
    requires NonNegative(ls)
    ensures (forall func, d: nat :: Shows(ls, func, d)) <==> !Clashes(ls, |ls|, true)
  {
    var fs := Finished(ls).frames;
    var cs := ByLine(ls);
    FramesTimely(ls);
    OverwritesIff(ls, cs, true);
    if i: nat, j: nat :| i < j < |fs| && SameKey(fs[i], fs[j]) && fs[i].start < fs[i].end {
      OverwrittenIsLost(fs, i, j);
      TableIsSamplesLessLost(ls, NodeKey(fs[i]).0, NodeKey(fs[i]).1);
      assert !Shows(ls, NodeKey(fs[i]).0, NodeKey(fs[i]).1);
    } else {
      forall func, d: nat
        ensures Shows(ls, func, d)
      {
        TableIsSamplesLessLost(ls, func, d);
        NothingLost(fs, func, d);
      }
    }
  }

  /** Whoever clashes visibly is missing from the table. */
  lemma {:induction false} ClashHides(ls: seq<Line>, a: nat, b: nat, d: nat)
    requires NonNegative(ls) && Clash(ls, a, b, d) && RunWidth(ls, a, d) > 0.0
    ensures TableWidth(Table(ls), Full(ls, a)[d], d) < Samples(ls, d, Ends(Full(ls, a)[d]))
  {
    var fs := Finished(ls).frames;
    var cs := ByLine(ls);
    var i, j := ClashMeets(ls, cs, a, b, d);
    KeyOf(ls, a, d);
    FramesTimely(ls);
    OverwrittenIsLost(fs, i, j);
    TableIsSamplesLessLost(ls, Full(ls, a)[d], d);
  }

  /** Two lines in sorted order, the second with count zero: the function `x` at depth two
      has five samples, and the table shows fewer. */
  lemma {:induction false} ZeroCountHides(ls: seq<Line>)
    requires ls == [Line(["a", "x"], 5.0), Line(["b", "x"], 0.0)]
    ensures NonNegative(ls) && Samples(ls, 2, Ends("x")) == 5.0 && TableWidth(Table(ls), "x", 2) < 5.0
  {
    var s, t := Full(ls, 0), Full(ls, 1);
    assert s == ["", "a", "x"] && t == ["", "b", "x"] && Full(ls, 2) == [];
    LongestPrefix(s, t, 1);
    LongestPrefix(t, [], 0);
    assert Clash(ls, 0, 1, 2);
    ClashHides(ls, 0, 1, 2);
    TwoLines(ls[0], ls[1], Ends("x"));
  }

  lemma {:induction false} TwoLines(k: Line, l: Line, p: Stack -> bool)
    ensures var s, t := [""] + k.stack, [""] + l.stack;
            Samples([k, l], 2, p) == (if 2 < |s| && p(s[..3]) then k.samples else 0.0) + (if 2 < |t| &&
              p(t[..3]) then l.samples else 0.0)
  {
    assert [k, l][..1] == [k] && [k][..0] == [];
    assert Samples([k, l][..1], 2, p) == Samples([], 2, p) + if 2 < |[""] + k.stack| &&
           p(([""] + k.stack)[..3]) then k.samples else 0.0;
  }
}
