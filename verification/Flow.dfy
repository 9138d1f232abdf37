/** Merging consecutive stacks into the frames of a flame graph. */
module Flow {

  type Stack = seq<string>

  /** A merged frame: the functions from the root down to it, and the time it spans. */
  datatype Frame = Frame(path: Stack, start: real, end: real)

  type Key = (string, nat)
  type Times = map<Key, real>

  /** Merged frames by function, depth and end time, with their start times. */
  type Nodes = map<(string, nat, real), real>

  // ----- the merge on values -----

  /** The stacks agree up to `k`, where they differ or one of them ends. */
  ghost predicate IsCommon(a: Stack, b: Stack, k: nat)
  {
    k <= |a| && k <= |b| && a[..k] == b[..k] && (k < |a| && k < |b| ==> a[k] != b[k])
  }

  lemma {:induction false} CommonExists(a: Stack, b: Stack, i: nat) returns (k: nat)
    requires i <= |a| && i <= |b| && a[..i] == b[..i]
    ensures IsCommon(a, b, k)
    decreases |a| - i
  {
    if i < |a| && i < |b| && a[i] == b[i] {
      assert a[..i + 1] == a[..i] + [a[i]] && b[..i + 1] == b[..i] + [b[i]];
      k := CommonExists(a, b, i + 1);
    } else {
      k := i;
    }
  }

  lemma {:induction false} CommonOnce(a: Stack, b: Stack, i: nat, k: nat)
    requires IsCommon(a, b, i)
    ensures k < i ==> !IsCommon(a, b, k)
  {
    if k < i { assert a[k] == a[..i][k] == b[..i][k] == b[k]; }
  }

  /** The length of the longest common prefix. */
  ghost function Common(a: Stack, b: Stack): (k: nat)
    ensures IsCommon(a, b, k)
  {
    assert exists k: nat :: IsCommon(a, b, k) by { var k := CommonExists(a, b, 0); }
    var k: nat :| IsCommon(a, b, k);
    k
  }

  lemma {:induction false} LongestPrefix(a: Stack, b: Stack, i: nat)
    requires IsCommon(a, b, i)
    ensures i == Common(a, b)
  {
    CommonOnce(a, b, i, Common(a, b));
    CommonOnce(a, b, Common(a, b), i);
  }

  /** The frames of `last` from depth `k` on, deepest first, all ending at `v`. */
  ghost function Closed(last: Stack, starts: seq<real>, k: nat, v: real): seq<Frame>
    requires k <= |last| == |starts|
    decreases |last|
  {
    var n := |last| - 1;
    if |last| == k then [] else [Frame(last, starts[n], v)] + Closed(last[..n], starts[..n], k, v)
  }

  ghost function Repeat(x: real, n: nat): (s: seq<real>)
    ensures |s| == n && forall i :: 0 <= i < n ==> s[i] == x
  {
    seq(n, _ => x)
  }

  /** The stack seen last, when each of its frames began, the finished frames and the time. */
  datatype Merge = Merge(last: Stack, starts: seq<real>, frames: seq<Frame>, time: real)

  ghost predicate Shaped(m: Merge) { |m.starts| == |m.last| }

  /** Switches to another stack at the current time. */
  ghost function Switch(m: Merge, s: Stack): Merge
    requires Shaped(m)
  {
    var k := Common(m.last, s);
    m.(last := s, starts := m.starts[..k] + Repeat(m.time, |s| - k),
      frames := m.frames + Closed(m.last, m.starts, k, m.time))
  }

  datatype Line = Line(stack: Stack, samples: real)

  ghost function Advance(m: Merge, l: Line): Merge
    requires Shaped(m)
  {
    var m' := Switch(m, [""] + l.stack);
    m'.(time := m.time + l.samples)
  }

  ghost function MergeAll(ls: seq<Line>): (m: Merge)
    ensures Shaped(m)
  {
    if ls == [] then Merge([], [], [], 0.0) else Advance(MergeAll(ls[..|ls| - 1]), ls[|ls| - 1])
  }

  ghost function Finished(ls: seq<Line>): Merge { Switch(MergeAll(ls), []) }

  // ----- invariants of the merge -----

  /** Open frames began in the past, inner ones no earlier than outer ones. */
  ghost predicate Open(m: Merge)
  {
    && Shaped(m)
    && (forall i :: 0 <= i < |m.starts| ==> m.starts[i] <= m.time)
    && (forall i, j :: 0 <= i <= j < |m.starts| ==> m.starts[i] <= m.starts[j])
  }

  ghost predicate Proper(f: Frame, now: real) { f.path != [] && f.start <= f.end <= now }

  /** Finished frames of one depth come one after the other, and before the open one. */
  ghost predicate Disjoint(m: Merge)
    requires Shaped(m)
  {
    && (forall i :: 0 <= i < |m.frames| ==> Proper(m.frames[i], m.time))
    && (forall i, j :: 0 <= i < j < |m.frames| && |m.frames[i].path| == |m.frames[j].path| ==>
      m.frames[i].end <= m.frames[j].start)
    && (forall i :: 0 <= i < |m.frames| && |m.frames[i].path| <= |m.last| ==>
      m.frames[i].end <= m.starts[|m.frames[i].path| - 1])
  }

  /** `g` is the frame of the caller of `f` and spans all of it. */
  ghost predicate Encloses(g: Frame, f: Frame)
  {
    f.path != [] && g.path == f.path[..|f.path| - 1] && g.start <= f.start && f.end <= g.end
  }

  /** The caller of `f` is still open. */
  ghost predicate OpenAbove(m: Merge, f: Frame)
    requires Shaped(m)
  {
    var n := |f.path| - 1;
    0 < n <= |m.last| && m.last[..n] == f.path[..n] && m.starts[n - 1] <= f.start
  }

  ghost predicate HasCaller(m: Merge, f: Frame)
    requires Shaped(m)
  {
    |f.path| > 1 ==> OpenAbove(m, f) || exists g :: g in m.frames && Encloses(g, f)
  }

  ghost predicate Nested(m: Merge)
    requires Shaped(m)
  {
    forall f :: f in m.frames ==> HasCaller(m, f)
  }

  lemma {:induction false} ClosedAt(last: Stack, starts: seq<real>, k: nat, v: real)
    requires k <= |last| == |starts|
    ensures var c := Closed(last, starts, k, v);
            && |c| == |last| - k
            && forall i :: 0 <= i < |c| ==> c[i] == Frame(last[..|last| - i], starts[|last| - 1 - i], v)
    decreases |last|
  {
    if |last| != k {
      var n := |last| - 1;
      ClosedAt(last[..n], starts[..n], k, v);
      var c, c' := Closed(last, starts, k, v), Closed(last[..n], starts[..n], k, v);
      assert last[..|last|] == last;
      forall i | 0 <= i < |c|
        ensures c[i] == Frame(last[..|last| - i], starts[|last| - 1 - i], v)
      {
        if i > 0 { assert c[i] == c'[i - 1] && last[..n][..n - (i - 1)] == last[..|last| - i]; }
      }
    }
  }

  /** The same, by depth: the frame at depth `d` is in the list. */
  lemma {:induction false} ClosedHas(last: Stack, starts: seq<real>, k: nat, v: real, d: nat)
    requires k <= d < |last| == |starts|
    ensures Frame(last[..d + 1], starts[d], v) in Closed(last, starts, k, v)
  {
    ClosedAt(last, starts, k, v);
    assert Closed(last, starts, k, v)[|last| - 1 - d] == Frame(last[..d + 1], starts[d], v);
  }

  lemma {:induction false} ClosedMember(last: Stack, starts: seq<real>, k: nat, v: real, f: Frame) returns (d: nat)
    requires k <= |last| == |starts| && f in Closed(last, starts, k, v)
    ensures k <= d < |last| && f == Frame(last[..d + 1], starts[d], v)
  {
    var c := Closed(last, starts, k, v);
    ClosedAt(last, starts, k, v);
    var i :| 0 <= i < |c| && c[i] == f;
    d := |last| - 1 - i;
  }

  lemma {:induction false} SwitchOpen(m: Merge, s: Stack, c: real)
    requires Open(m) && c >= 0.0
    ensures var m' := Switch(m, s); Open(m'.(time := m.time + c))
  {
  }

  lemma {:induction false} FrameOfSwitch(m: Merge, s: Stack, i: nat)
    requires Open(m) && Disjoint(m) && i < |Switch(m, s).frames|
    ensures var m' := Switch(m, s);
            var f := m'.frames[i];
            && Proper(f, m.time)
            && (|f.path| <= |s| ==> f.end <= m'.starts[|f.path| - 1])
            && (i >= |m.frames| ==> |f.path| == |m.last| - (i - |m.frames|) && f.start == m.starts[|f.path| - 1])
  {
    var k, m' := Common(m.last, s), Switch(m, s);
    var c, n := Closed(m.last, m.starts, k, m.time), |m.frames|;
    ClosedAt(m.last, m.starts, k, m.time);
    if i >= n {
      assert m'.frames[i] == c[i - n];
    } else {
      assert m'.frames[i] == m.frames[i];
    }
  }

  lemma {:induction false} SwitchDisjoint(m: Merge, s: Stack)
    requires Open(m) && Disjoint(m)
    ensures Disjoint(Switch(m, s))
  {
    var m' := Switch(m, s);
    forall i | 0 <= i < |m'.frames|
      ensures Proper(m'.frames[i], m.time)
      ensures |m'.frames[i].path| <= |s| ==> m'.frames[i].end <= m'.starts[|m'.frames[i].path| - 1]
    {
      FrameOfSwitch(m, s, i);
    }
    forall i, j | 0 <= i < j < |m'.frames| && |m'.frames[i].path| == |m'.frames[j].path|
      ensures m'.frames[i].end <= m'.frames[j].start
    {
      FrameOfSwitch(m, s, i);
      FrameOfSwitch(m, s, j);
      if j < |m.frames| {
        assert m'.frames[i] == m.frames[i] && m'.frames[j] == m.frames[j];
      } else if i < |m.frames| {
        assert m'.frames[i] == m.frames[i];
      }
    }
  }

  /** A frame whose caller was open keeps its caller, open or closed. */
  lemma {:induction false} CallerStays(m: Merge, s: Stack, f: Frame)
    requires Shaped(m) && OpenAbove(m, f) && f.end <= m.time
    ensures HasCaller(Switch(m, s), f)
  {
    var k, n, m' := Common(m.last, s), |f.path| - 1, Switch(m, s);
    if n <= k {
      assert s[..n] == s[..k][..n] == m.last[..k][..n] == m.last[..n];
      assert OpenAbove(m', f);
    } else {
      ClosedHas(m.last, m.starts, k, m.time, n - 1);
      var g := Frame(m.last[..n], m.starts[n - 1], m.time);
      assert g in m'.frames && Encloses(g, f);
    }
  }

  lemma {:induction false} ClosedCaller(m: Merge, s: Stack, d: nat)
    requires Open(m) && Common(m.last, s) <= d < |m.last|
    ensures HasCaller(Switch(m, s), Frame(m.last[..d + 1], m.starts[d], m.time))
  {
    var f := Frame(m.last[..d + 1], m.starts[d], m.time);
    if d > 0 {
      assert m.last[..d] == f.path[..d];
      assert OpenAbove(m, f);
      CallerStays(m, s, f);
    }
  }

  lemma {:induction false} OldCaller(m: Merge, s: Stack, f: Frame)
    requires Open(m) && Disjoint(m) && f in m.frames && HasCaller(m, f)
    ensures HasCaller(Switch(m, s), f)
  {
    if |f.path| > 1 {
      if OpenAbove(m, f) {
        CallerStays(m, s, f);
      } else {
        var g :| g in m.frames && Encloses(g, f);
        assert g in Switch(m, s).frames;
      }
    }
  }

  lemma {:induction false} NewCaller(m: Merge, s: Stack, f: Frame)
    requires Open(m) && f in Closed(m.last, m.starts, Common(m.last, s), m.time)
    ensures HasCaller(Switch(m, s), f)
  {
    var d := ClosedMember(m.last, m.starts, Common(m.last, s), m.time, f);
    ClosedCaller(m, s, d);
  }

  lemma {:induction false} SwitchNested(m: Merge, s: Stack)
    requires Open(m) && Disjoint(m) && Nested(m)
    ensures Nested(Switch(m, s))
  {
    forall f | f in Switch(m, s).frames
      ensures HasCaller(Switch(m, s), f)
    {
      if f in m.frames { OldCaller(m, s, f); } else { NewCaller(m, s, f); }
    }
  }

  /** What the pattern for input lines guarantees: a count has no sign. */
  ghost predicate NonNegative(ls: seq<Line>) { forall i :: 0 <= i < |ls| ==> ls[i].samples >= 0.0 }

  lemma {:induction false} MergeInv(ls: seq<Line>)
    requires NonNegative(ls)
    ensures var m := MergeAll(ls); Open(m) && Disjoint(m) && Nested(m)
  {
    if ls != [] {
      var m, l := MergeAll(ls[..|ls| - 1]), ls[|ls| - 1];
      MergeInv(ls[..|ls| - 1]);
      SwitchOpen(m, [""] + l.stack, l.samples);
      SwitchDisjoint(m, [""] + l.stack);
      SwitchNested(m, [""] + l.stack);
      LaterNested(Switch(m, [""] + l.stack), m.time + l.samples);
    }
  }

  lemma {:induction false} LaterNested(m: Merge, t: real)
    requires Shaped(m) && Nested(m)
    ensures Nested(m.(time := t))
  {
    forall f | f in m.frames
      ensures HasCaller(m.(time := t), f)
    {
      assert HasCaller(m, f);
      if OpenAbove(m, f) { assert OpenAbove(m.(time := t), f); }
    }
  }

  // ----- conservation -----

  /** The widths of the frames at depth `d` whose path satisfies `p`, added up. */
  ghost function Width(fs: seq<Frame>, d: nat, p: Stack -> bool): real
  {
    if fs == [] then 0.0 else
    var f := fs[0];
    (if |f.path| == d + 1 && p(f.path) then f.end - f.start else 0.0) + Width(fs[1..], d, p)
  }

  ghost function OpenWidth(m: Merge, d: nat, p: Stack -> bool): real
    requires Shaped(m)
  {
    if d < |m.last| && p(m.last[..d + 1]) then m.time - m.starts[d] else 0.0
  }

  /** The samples of the stacks that have a frame at depth `d` whose path satisfies `p`. */
  ghost function Samples(ls: seq<Line>, d: nat, p: Stack -> bool): real
  {
    if ls == [] then 0.0 else
    var l := ls[|ls| - 1];
    var s := [""] + l.stack;
    Samples(ls[..|ls| - 1], d, p) + if d < |s| && p(s[..d + 1]) then l.samples else 0.0
  }

  lemma {:induction false} WidthConcat(a: seq<Frame>, b: seq<Frame>, d: nat, p: Stack -> bool)
    ensures Width(a + b, d, p) == Width(a, d, p) + Width(b, d, p)
  {
    if a == [] {
      assert a + b == b;
    } else {
      assert (a + b)[1..] == a[1..] + b;
      WidthConcat(a[1..], b, d, p);
    }
  }

  lemma {:induction false} ClosedWidth(last: Stack, starts: seq<real>, k: nat, v: real, d: nat, p: Stack -> bool)
    requires k <= |last| == |starts|
    ensures Width(Closed(last, starts, k, v), d, p) == if k <= d < |last| &&
            p(last[..d + 1]) then v - starts[d] else 0.0
    decreases |last|
  {
    if |last| != k {
      var n := |last| - 1;
      ClosedWidth(last[..n], starts[..n], k, v, d, p);
      assert d < n ==> last[..n][..d + 1] == last[..d + 1];
      assert last[..n + 1] == last;
      assert Closed(last, starts, k, v)[1..] == Closed(last[..n], starts[..n], k, v);
    }
  }

  lemma {:induction false} SwitchConserves(m: Merge, s: Stack, d: nat, p: Stack -> bool)
    requires Shaped(m)
    ensures var m' := Switch(m, s);
            Width(m'.frames, d, p) + OpenWidth(m', d, p) == Width(m.frames, d, p) + OpenWidth(m, d, p)
  {
    var k := Common(m.last, s);
    WidthConcat(m.frames, Closed(m.last, m.starts, k, m.time), d, p);
    ClosedWidth(m.last, m.starts, k, m.time, d, p);
    if d < k { assert s[..d + 1] == s[..k][..d + 1] == m.last[..k][..d + 1] == m.last[..d + 1]; }
  }

  lemma {:induction false} MergeConserves(ls: seq<Line>, d: nat, p: Stack -> bool)
    ensures var m := MergeAll(ls); Width(m.frames, d, p) + OpenWidth(m, d, p) == Samples(ls, d, p)
  {
    if ls != [] {
      MergeConserves(ls[..|ls| - 1], d, p);
      SwitchConserves(MergeAll(ls[..|ls| - 1]), [""] + ls[|ls| - 1].stack, d, p);
    }
  }

  /** At every depth and for every property of paths, such as a given function or a given
      chain of callers, the widths of the frames add up to the samples of the stacks. */
  lemma {:induction false} FramesConserveSamples(ls: seq<Line>, d: nat, p: Stack -> bool)
    ensures Width(Finished(ls).frames, d, p) == Samples(ls, d, p)
  {
    MergeConserves(ls, d, p);
    SwitchConserves(MergeAll(ls), [], d, p);
  }

  /** Frames of one depth do not overlap and every frame below the root lies inside a frame
      of its caller. */
  lemma {:induction false} FramesDisjointAndNested(ls: seq<Line>)
    requires NonNegative(ls)
    ensures var fs := Finished(ls).frames;
            && (forall i, j :: 0 <= i < j < |fs| && |fs[i].path| == |fs[j].path| ==> fs[i].end <= fs[j].start)
            && (forall i :: 0 <= i < |fs| ==> fs[i].path != [] && fs[i].start <= fs[i].end)
            && forall f :: f in fs && |f.path| > 1 ==> exists g :: g in fs && Encloses(g, f)
  {
    var m := MergeAll(ls);
    MergeInv(ls);
    SwitchDisjoint(m, []);
    SwitchNested(m, []);
    var e := Finished(ls);
    assert forall i :: 0 <= i < |e.frames| ==> Proper(e.frames[i], e.time);
    forall f | f in e.frames && |f.path| > 1
      ensures exists g :: g in e.frames && Encloses(g, f)
    {
      assert HasCaller(e, f) && !OpenAbove(e, f);
    }
  }

  // ----- the two tables -----

  /** The table of open frames for a stack and the times its frames began. */
  ghost function OpenTimes(s: Stack, starts: seq<real>): Times
    requires |s| == |starts|
    decreases |s|
  {
    if s == [] then map[] else
    var n := |s| - 1;
    OpenTimes(s[..n], starts[..n])[(s[n], n) := starts[n]]
  }

  ghost function NodeKey(f: Frame): (string, nat, real)
    requires f.path != []
  {
    (f.path[|f.path| - 1], |f.path| - 1, f.end)
  }

  /** The table of merged frames after the frames `fs` were stored in it. */
  ghost function Recorded(ns: Nodes, fs: seq<Frame>): Nodes
    requires forall f :: f in fs ==> f.path != []
  {
    if fs == [] then ns else Recorded(ns, fs[..|fs| - 1])[NodeKey(fs[|fs| - 1]) := fs[|fs| - 1].start]
  }

  lemma {:induction false} RecordedConcat(ns: Nodes, a: seq<Frame>, b: seq<Frame>)
    requires forall f :: f in a || f in b ==> f.path != []
    ensures Recorded(ns, a + b) == Recorded(Recorded(ns, a), b)
  {
    if b == [] {
      assert a + b == a;
    } else {
      var n := |b| - 1;
      assert (a + b)[..|a + b| - 1] == a + b[..n] && (a + b)[|a + b| - 1] == b[n];
      RecordedConcat(ns, a, b[..n]);
    }
  }

  lemma {:induction false} RecordedStep(ns: Nodes, fs: seq<Frame>, d: nat)
    requires 0 < d <= |fs| && forall f :: f in fs ==> f.path != []
    ensures Recorded(ns, fs[..d]) == Recorded(ns, fs[..d - 1])[NodeKey(fs[d - 1]) := fs[d - 1].start]
  {
    assert fs[..d][..d - 1] == fs[..d - 1] && fs[..d][d - 1] == fs[d - 1];
  }

  lemma {:induction false} Shorter<T>(s: seq<T>, i: nat)
    requires i < |s|
    ensures s[..i + 1][..i] == s[..i]
  {
  }

  lemma {:induction false} OpenKeys(s: Stack, starts: seq<real>)
    requires |s| == |starts|
    ensures forall k :: k in OpenTimes(s, starts) ==> k.1 < |s|
    decreases |s|
  {
    if s != [] { OpenKeys(s[..|s| - 1], starts[..|s| - 1]); }
  }

  class Graph {
    var tmp: Times
    var node: Nodes

    constructor ()
      ensures tmp == map[] && node == map[]
    {
      tmp, node := map[], map[];
    }

    /** The number of frames that two stacks share from the root on. */
    method Shared(last: Stack, stack: Stack) returns (i: nat)
      ensures i == Common(last, stack)
    {
      i := 0;
      while i < |last| && i < |stack| && last[i] == stack[i]
        invariant i <= |last| && i <= |stack| && last[..i] == stack[..i]
      {
        i := i + 1;
      }
      LongestPrefix(last, stack, i);
    }

    /** Moves the deepest open frame to the table of merged frames. */
    method CloseOne(ghost last: Stack, ghost starts: seq<real>, func: string, i: nat, v: real)
      requires i + 1 == |last| == |starts| && func == last[i] && tmp == OpenTimes(last, starts)
      modifies this
      ensures tmp == OpenTimes(last[..i], starts[..i]) && node == old(node)[(func, i, v) := starts[i]]
    {
      OpenKeys(last[..i], starts[..i]);
      node := node[(func, i, v) := tmp[(func, i)]];
      tmp := tmp - {(func, i)};
    }

    method Close(last: Stack, ghost starts: seq<real>, k: nat, v: real)
      requires k <= |last| == |starts| && tmp == OpenTimes(last, starts)
      modifies this
      ensures tmp == OpenTimes(last[..k], starts[..k])
      ensures (forall f :: f in Closed(last, starts, k, v) ==> f.path != []) &&
              node == Recorded(old(node), Closed(last, starts, k, v))
    {
      ghost var fs := Closed(last, starts, k, v);
      ClosedAt(last, starts, k, v);
      var i := |last|;
      assert last[..i] == last && starts[..i] == starts;
      while i > k
        invariant k <= i <= |last| && tmp == OpenTimes(last[..i], starts[..i])
        invariant (forall f :: f in fs ==> f.path != []) && node == Recorded(old(node), fs[..|last| - i])
      {
        i := i - 1;
        RecordedStep(old(node), fs, |last| - i);
        Shorter(last, i);
        Shorter(starts, i);
        CloseOne(last[..i + 1], starts[..i + 1], last[i], i, v);
      }
      assert fs[..|fs|] == fs;
    }

    method OpenRest(stack: Stack, ghost starts: seq<real>, k: nat, v: real)
      requires |starts| == k <= |stack| && tmp == OpenTimes(stack[..k], starts)
      modifies this`tmp
      ensures tmp == OpenTimes(stack, starts + Repeat(v, |stack| - k))
    {
      assert starts + Repeat(v, 0) == starts;
      for i := k to |stack|
        invariant tmp == OpenTimes(stack[..i], starts + Repeat(v, i - k))
      {
        ghost var s' := starts + Repeat(v, i + 1 - k);
        assert stack[..i + 1][..i] == stack[..i] && s'[..i] == starts + Repeat(v, i - k);
        tmp := tmp[(stack[i], i) := v];
      }
      assert stack[..|stack|] == stack;
    }

    /** Merges the next stack. `m` is what the tables stand for. */
    method Flow(last: Stack, stack: Stack, v: real, ghost m: Merge)
      requires Shaped(m) && m.last == last && m.time == v && tmp == OpenTimes(last, m.starts)
      modifies this
      ensures tmp == OpenTimes(stack, Switch(m, stack).starts)
      ensures var c := Closed(last, m.starts, Common(last, stack), v);
              (forall f :: f in c ==> f.path != []) && node == Recorded(old(node), c)
    {
      var k := Shared(last, stack);
      Close(last, m.starts, k, v);
      OpenRest(stack, m.starts[..k], k, v);
    }

    /** Processes all lines. In the end no frame is open, and the table of merged frames
        holds the frames of the merge. */
    method Run(ls: seq<Line>) returns (time: real)
      requires tmp == map[] && node == map[]
      modifies this
      ensures tmp == map[] && time == MergeAll(ls).time
      ensures (forall f :: f in Finished(ls).frames ==> f.path != []) && node == Recorded(map[], Finished(ls).frames)
    {
      var last: Stack := [];
      time := 0.0;
      for i := 0 to |ls|
        invariant last == MergeAll(ls[..i]).last && time == MergeAll(ls[..i]).time
        invariant tmp == OpenTimes(last, MergeAll(ls[..i]).starts)
        invariant (forall f :: f in MergeAll(ls[..i]).frames ==> f.path != []) &&
                  node == Recorded(map[], MergeAll(ls[..i]).frames)
      {
        ghost var m := MergeAll(ls[..i]);
        assert ls[..i + 1][..i] == ls[..i];
        var s := [""] + ls[i].stack;
        Flow(last, s, time, m);
        RecordedConcat(map[], m.frames, Closed(m.last, m.starts, Common(m.last, s), m.time));
        last, time := s, time + ls[i].samples;
      }
      assert ls[..|ls|] == ls;
      ghost var m := MergeAll(ls);
      Flow(last, [], time, m);
      RecordedConcat(map[], m.frames, Closed(m.last, m.starts, Common(m.last, []), m.time));
    }
  }
}
