/** Decoding a sample record: an instruction pointer, process and thread, a time stamp,
    and a call chain or a branch stack, cut off wherever the record ends. */
module Samples {
  import opened Bytes
  import opened Sequences

  const WORD: nat := 8
  const BRANCH: nat := 24  // source, target and flags of one branch

  /** The number in the `k` bytes from `at` on. */
  function Field(s: seq<Byte>, at: nat, k: nat): nat
    requires at + k <= |s|
  {
    Value(s[at..at + k])
  }

  /** The bytes that `n` chain elements take. */
  function Span(lbr: bool, n: nat): nat { if lbr then BRANCH * n else WORD * n }

  /** `n` addresses, one at the start of each chain element. */
  function Fields(s: seq<Byte>, at: nat, lbr: bool, n: nat): seq<nat>
    requires at + Span(lbr, n) <= |s|
    decreases n
  {
    if n == 0 then [] else [Field(s, at, WORD)] + Fields(s, at + Span(lbr, 1), lbr, n - 1)
  }

  function NonZero(s: seq<nat>): seq<nat>
  {
    if s == [] then [] else (if s[0] != 0 then [s[0]] else []) + NonZero(s[1..])
  }

  /** How many chain elements are decoded: as many as announced, as fit into the rest of
      the record, and as the result has room for. */
  function Count(body: seq<Byte>, lbr: bool, max: nat): (n: nat)
    requires |body| >= 4 * WORD
    ensures n <= max && 4 * WORD + Span(lbr, n) <= |body|
  {
    var rest := |body| - 4 * WORD;
    Min(Min(Field(body, 3 * WORD, WORD), Whole(lbr, rest)), max)
  }

  /** How many whole chain elements fit into `len` bytes. */
  function Whole(lbr: bool, len: nat): (n: nat)
    ensures Span(lbr, n) <= len < Span(lbr, n + 1)
  {
    if lbr then len / BRANCH else len / WORD
  }

  /** The chain in the body of a record. */
  function Chain(body: seq<Byte>, lbr: bool, max: nat): seq<nat>
  {
    if |body| < 4 * WORD then []
    else
      var all := Fields(body, 4 * WORD, lbr, Count(body, lbr, max));
      if lbr then NonZero(all) else all
  }

  class Callchain {
    var timestamp: nat
    var pid: nat
    var tid: nat
    var ip: nat
    var nr: nat
    const ips: array<nat>

    constructor (max: nat)
      ensures ips.Length == max && nr == 0
    {
      timestamp, pid, tid, ip, nr := 0, 0, 0, 0, 0;
      ips := new nat[max];
    }

    /** What a decode leaves here. The time stamp keeps its old value if the record is too
        short to hold one. */
    ghost predicate Decoded(body: seq<Byte>, lbr: bool, max: nat, oldTimestamp: nat)
      reads this, ips
    {
      && ip == (if |body| >= WORD then Field(body, 0, WORD) else 0)
      && pid == (if |body| >= 2 * WORD then Field(body, WORD, 4) else 0)
      && tid == (if |body| >= 2 * WORD then Field(body, WORD + 4, 4) else 0)
      && timestamp == (if |body| >= 3 * WORD then Field(body, 2 * WORD, WORD) else oldTimestamp)
      && nr <= max && nr <= ips.Length && ips[..nr] == Chain(body, lbr, max)
    }

    /** Copies the sources of `n` branches, leaving out those that are zero. */
    method CopyBranches(body: seq<Byte>, n: nat)
      requires 4 * WORD + Span(true, n) <= |body| && n <= ips.Length
      modifies this`nr, ips
      ensures nr <= n && ips[..nr] == NonZero(Fields(body, 4 * WORD, true, n))
    {
      nr := 0;
      ghost var all := Fields(body, 4 * WORD, true, n);
      FieldsAt(body, 4 * WORD, true, n);
      for i := 0 to n
        invariant nr <= i && ips[..nr] == NonZero(all[..i])
      {
        var from := Field(body, 4 * WORD + BRANCH * i, WORD);
        assert all[..i + 1] == all[..i] + [from];
        NonZeroMore(all[..i], from);
        if from != 0 {
          ips[nr] := from;
          nr := nr + 1;
          assert ips[..nr] == ips[..nr - 1] + [from];
        }
      }
      assert all[..n] == all;
    }

    /** Copies `n` words of a call chain. */
    method CopyWords(body: seq<Byte>, n: nat)
      requires 4 * WORD + Span(false, n) <= |body| && n <= ips.Length
      modifies this`nr, ips
      ensures nr == n && ips[..n] == Fields(body, 4 * WORD, false, n)
    {
      nr := n;
      ghost var all := Fields(body, 4 * WORD, false, n);
      FieldsAt(body, 4 * WORD, false, n);
      for i := 0 to n
        invariant nr == n && ips[..i] == all[..i]
      {
        ips[i] := Field(body, 4 * WORD + WORD * i, WORD);
      }
      assert all[..n] == all;
    }

    /** Decodes the bytes behind the header of a record. If they begin as a sample does, cut
        off anywhere or followed by more, the fields that are there are those of the sample. */
    method Parse(body: seq<Byte>, lbr: bool, max: nat)
      requires max <= ips.Length
      modifies this, ips
      ensures Decoded(body, lbr, max, old(timestamp))
      ensures (|body| < 8 ==> ip == 0) && (|body| < 16 ==> pid == 0 && tid == 0)
      ensures (|body| < 24 ==> timestamp == old(timestamp)) && (|body| < 32 ==> nr == 0)
      ensures forall s: Sample | Begins(s, body) && lbr == s.stack.Branches? ::
                && (|body| >= 8 ==> ip == s.ip)
                && (|body| >= 16 ==> pid == s.pid && tid == s.tid)
                && (|body| >= 24 ==> timestamp == s.time)
                && nr <= max && exists n: nat :: IsLongest(s.stack, |body|, max, n) && ips[..nr] == s.stack.Shown(n)
    {
      Fill(body, lbr, max);
      forall s: Sample | Begins(s, body) && lbr == s.stack.Branches?
        ensures (|body| >= 8 ==> ip == s.ip) && (|body| >= 16 ==> pid == s.pid && tid == s.tid)
        ensures |body| >= 24 ==> timestamp == s.time
        ensures exists n: nat :: IsLongest(s.stack, |body|, max, n) && ips[..nr] == s.stack.Shown(n)
      {
        CutFields(s, body);
        ChainRoundTrip(s, body, max);
        KeptIsLongest(s, |body|, max);
        ShownIs(s.stack, Kept(s, |body|, max));
      }
    }

    /** The decoder itself. */
    method Fill(body: seq<Byte>, lbr: bool, max: nat)
      requires max <= ips.Length
      modifies this, ips
      ensures Decoded(body, lbr, max, old(timestamp))
    {
      pid, tid, ip, nr := 0, 0, 0, 0;
      var ptr := 0;
      if ptr + WORD > |body| { return; }
      ip := Field(body, ptr, WORD);
      ptr := ptr + WORD;
      if ptr + WORD > |body| { return; }
      pid, tid := Field(body, ptr, 4), Field(body, ptr + 4, 4);
      ptr := ptr + WORD;
      if ptr + WORD > |body| { return; }
      timestamp := Field(body, ptr, WORD);
      ptr := ptr + WORD;
      if ptr + WORD > |body| { return; }
      if lbr {
        CopyBranches(body, Count(body, true, max));
      } else {
        CopyWords(body, Count(body, false, max));
      }
    }
  }

  lemma {:induction false} FieldsAt(s: seq<Byte>, at: nat, lbr: bool, n: nat)
    requires at + Span(lbr, n) <= |s|
    ensures |Fields(s, at, lbr, n)| == n
    ensures forall i :: 0 <= i < n ==>
              at + Span(lbr, i) + WORD <= |s| && Fields(s, at, lbr, n)[i] == Field(s, at + Span(lbr, i), WORD)
    decreases n
  {
    if n != 0 {
      var d := Span(lbr, 1);
      FieldsAt(s, at + d, lbr, n - 1);
      forall i | 0 <= i < n
        ensures at + Span(lbr, i) + WORD <= |s| && Fields(s, at, lbr, n)[i] == Field(s, at + Span(lbr, i), WORD)
      {
        if i > 0 { assert at + d + Span(lbr, i - 1) == at + Span(lbr, i); }
      }
    }
  }

  lemma {:induction false} NonZeroMore(s: seq<nat>, x: nat)
    ensures NonZero(s + [x]) == NonZero(s) + if x != 0 then [x] else []
  {
    if s == [] {
      assert s + [x] == [x];
    } else {
      assert (s + [x])[1..] == s[1..] + [x];
      NonZeroMore(s[1..], x);
    }
  }

  // ----- round trip -----

  datatype Branch = Branch(from: nat, to: nat, flags: nat)

  datatype Stack = Frames(frames: seq<nat>) | Branches(branches: seq<Branch>)
  {
    function Length(): nat { if Frames? then |frames| else |branches| }
    /** The address in element `i`. */
    function Address(i: nat): nat
      requires i < Length()
    {
      if Frames? then frames[i] else branches[i].from
    }
    function Element(i: nat): (e: seq<Byte>)
      requires i < Length()
      ensures |e| == Span(Branches?, 1)
    {
      if Frames? then Digits(frames[i], WORD)
      else Digits(branches[i].from, WORD) + Digits(branches[i].to, WORD) + Digits(branches[i].flags, WORD)
    }
    function Elements(): seq<seq<Byte>> { seq(Length(), i requires 0 <= i < Length() => Element(i)) }
    function Bytes(): seq<Byte> { Join(Elements()) }
    /** The first `n` addresses of a call chain, or those of `n` branches that are not zero. */
    ghost function Shown(n: nat): seq<nat>
      requires n <= Length()
    {
      if Frames? then frames[..n] else NonZero(Sources(branches)[..n])
    }
    /** The addresses of the first `n` elements. */
    function Addresses(n: nat): seq<nat>
      requires n <= Length()
    {
      if n == 0 then [] else Addresses(n - 1) + [Address(n - 1)]
    }
  }

  datatype Sample = Sample(ip: nat, pid: nat, tid: nat, time: nat, stack: Stack)
  {
    ghost predicate Fits()
    {
      && ip < Pow256(8) && pid < Pow256(4) && tid < Pow256(4) && time < Pow256(8)
      && stack.Length() < Pow256(8) && forall i :: 0 <= i < stack.Length() ==> stack.Address(i) < Pow256(8)
    }
    function Fixed(): (b: seq<Byte>)
      ensures |b| == 4 * WORD
    {
      Digits(ip, 8) + Digits(pid, 4) + Digits(tid, 4) + Digits(time, 8) + Digits(stack.Length(), 8)
    }
    /** The bytes of the sample behind the record header. */
    function Body(): seq<Byte> { Fixed() + stack.Bytes() }
  }

  /** The bytes begin as those of the sample do: they may be cut off anywhere, or more bytes
      may follow. */
  ghost predicate Begins(s: Sample, b: seq<Byte>)
  {
    var m := Min(|b|, |s.Body()|);
    s.Fits() && b[..m] == s.Body()[..m]
  }

  /** `n` is the largest number of elements that the stack has, for which there is room,
      and which lie before the cut: the stack begins after 32 bytes, and an element has 8
      bytes in a call chain and 24 in a branch stack. */
  ghost predicate IsLongest(t: Stack, k: nat, max: nat, n: nat)
  {
    var d := if t.Frames? then 8 else 24;
    && n <= t.Length() && n <= max && (n > 0 ==> 32 + d * n <= k)
    && (n == t.Length() || n == max || 32 + d * (n + 1) > k)
  }

  lemma {:induction false} KeptIsLongest(s: Sample, k: nat, max: nat)
    ensures IsLongest(s.stack, k, max, Kept(s, k, max))
  {
  }

  lemma {:induction false} ShownIs(t: Stack, n: nat)
    requires n <= t.Length()
    ensures t.Shown(n) == if t.Frames? then t.Addresses(n) else NonZero(t.Addresses(n))
  {
    AddressesAt(t, n);
    if t.Frames? {
      assert t.Addresses(n) == t.frames[..n];
    } else {
      assert t.Addresses(n) == Sources(t.branches)[..n];
    }
  }

  lemma {:induction false} CutFields(s: Sample, b: seq<Byte>)
    requires Begins(s, b)
    ensures |b| >= 8 ==> Field(b, 0, 8) == s.ip
    ensures |b| >= 16 ==> Field(b, 8, 4) == s.pid && Field(b, 12, 4) == s.tid
    ensures |b| >= 24 ==> Field(b, 16, 8) == s.time
    ensures |b| >= 32 ==> Field(b, 24, 8) == s.stack.Length()
  {
    FixedFields(s);
    if |b| >= 8 { FieldOfCut(s, b, 0, 8); }
    if |b| >= 16 {
      FieldOfCut(s, b, 8, 4);
      FieldOfCut(s, b, 12, 4);
    }
    if |b| >= 24 { FieldOfCut(s, b, 16, 8); }
    if |b| >= 32 { FieldOfCut(s, b, 24, 8); }
  }

  function Join(es: seq<seq<Byte>>): seq<Byte>
  {
    if es == [] then [] else Join(es[..|es| - 1]) + es[|es| - 1]
  }

  lemma {:induction false} JoinLength(es: seq<seq<Byte>>, lbr: bool)
    requires forall e :: e in es ==> |e| == Span(lbr, 1)
    ensures |Join(es)| == Span(lbr, |es|)
  {
    if es != [] { JoinLength(es[..|es| - 1], lbr); }
  }

  /** More elements come behind the first `i`. */
  lemma {:induction false} JoinPrefix(es: seq<seq<Byte>>, i: nat)
    requires i <= |es|
    ensures |Join(es[..i])| <= |Join(es)| && Join(es)[..|Join(es[..i])|] == Join(es[..i])
  {
    if i < |es| {
      var n := |es| - 1;
      assert es[..n][..i] == es[..i];
      JoinPrefix(es[..n], i);
    } else {
      assert es[..i] == es;
    }
  }

  lemma {:induction false} JoinAt(es: seq<seq<Byte>>, lbr: bool, i: nat, k: nat)
    requires i < |es| && k <= Span(lbr, 1) && forall e :: e in es ==> |e| == Span(lbr, 1)
    ensures Span(lbr, i) + k <= |Join(es)| && Join(es)[Span(lbr, i)..Span(lbr, i) + k] == es[i][0..k]
  {
    JoinLength(es[..i], lbr);
    JoinPrefix(es, i + 1);
    assert es[..i + 1][..i] == es[..i] && es[i] in es;
    StartOf(Join(es), Join(es[..i]), es[i], k);
  }

  lemma {:induction false} ElementAt(t: Stack, i: nat)
    requires i < t.Length()
    ensures var at := Span(t.Branches?, i);
            at + WORD <= |t.Bytes()| && t.Bytes()[at..at + WORD] == t.Element(i)[0..WORD]
  {
    JoinAt(t.Elements(), t.Branches?, i, WORD);
  }

  /** Where `e` begins in a sequence that begins with `a` and `e`. */
  lemma {:induction false} StartOf(w: seq<Byte>, a: seq<Byte>, e: seq<Byte>, k: nat)
    requires k <= |e| && |a + e| <= |w| && w[..|a + e|] == a + e
    ensures w[|a|..|a| + k] == e[0..k]
  {
    SliceRight(a, e, 0, k);
    SliceLeft(a + e, w[|a + e|..], |a|, |a| + k);
    assert w == (a + e) + w[|a + e|..];
  }

  lemma {:induction false} FirstWord(t: Stack, i: nat)
    requires i < t.Length()
    ensures t.Element(i)[0..WORD] == Digits(t.Address(i), WORD)
  {
  }

  lemma {:induction false} SliceRight(a: seq<Byte>, b: seq<Byte>, i: nat, j: nat)
    requires i <= j <= |b|
    ensures (a + b)[|a| + i..|a| + j] == b[i..j]
  {
  }

  lemma {:induction false} SliceLeft(a: seq<Byte>, b: seq<Byte>, i: nat, j: nat)
    requires i <= j <= |a|
    ensures (a + b)[i..j] == a[i..j]
  {
  }

  lemma {:induction false} AddressesAt(t: Stack, n: nat)
    requires n <= t.Length()
    ensures |t.Addresses(n)| == n && forall i :: 0 <= i < n ==> t.Addresses(n)[i] == t.Address(i)
  {
    if n != 0 { AddressesAt(t, n - 1); }
  }

  /** How many elements of the stack are found in `k` bytes that begin as the sample does. */
  ghost function Kept(s: Sample, k: nat, max: nat): (n: nat)
    ensures n <= s.stack.Length() && n <= max
  {
    if k < 4 * WORD then 0 else Min(Min(s.stack.Length(), Whole(s.stack.Branches?, k - 4 * WORD)), max)
  }

  lemma {:induction false} FieldOfCut(s: Sample, b: seq<Byte>, at: nat, len: nat)
    requires Begins(s, b) && at + len <= |b| && at + len <= |s.Body()|
    ensures Field(b, at, len) == Field(s.Body(), at, len)
  {
    var m := Min(|b|, |s.Body()|);
    assert b[at..at + len] == b[..m][at..at + len] && s.Body()[at..at + len] == s.Body()[..m][at..at + len];
  }

  lemma {:induction false} Cut(a: seq<Byte>, b: seq<Byte>, c: seq<Byte>, d: seq<Byte>, e: seq<Byte>, f: seq<Byte>)
    requires |a| == 8 && |b| == 4 && |c| == 4 && |d| == 8 && |e| == 8
    ensures var s := a + b + c + d + e + f;
            s[0..8] == a && s[8..12] == b && s[12..16] == c && s[16..24] == d && s[24..32] == e
  {
  }

  lemma {:induction false} FixedFields(s: Sample)
    requires s.Fits()
    ensures var b := s.Body();
            && |b| >= 4 * WORD
            && Field(b, 0, 8) == s.ip && Field(b, 8, 4) == s.pid && Field(b, 12, 4) == s.tid
            && Field(b, 16, 8) == s.time && Field(b, 24, 8) == s.stack.Length()
  {
    Cut(Digits(s.ip, 8), Digits(s.pid, 4), Digits(s.tid, 4), Digits(s.time, 8), Digits(s.stack.Length(), 8),
        s.stack.Bytes());
    ValueOfDigits(s.ip, 8);
    ValueOfDigits(s.pid, 4);
    ValueOfDigits(s.tid, 4);
    ValueOfDigits(s.time, 8);
    ValueOfDigits(s.stack.Length(), 8);
  }

  lemma {:induction false} StackField(s: Sample, i: nat)
    requires s.Fits() && i < s.stack.Length()
    ensures var at := 4 * WORD + Span(s.stack.Branches?, i);
            at + WORD <= |s.Body()| && Field(s.Body(), at, WORD) == s.stack.Address(i)
  {
    var t, at := s.stack, Span(s.stack.Branches?, i);
    ElementAt(t, i);
    FirstWord(t, i);
    var w := t.Bytes();
    SliceRight(s.Fixed(), w, at, at + WORD);
    ValueOfDigits(t.Address(i), WORD);
  }

  lemma {:induction false} StackFields(s: Sample, b: seq<Byte>, n: nat)
    requires Begins(s, b) && n <= s.stack.Length() && 4 * WORD + Span(s.stack.Branches?, n) <= |b|
    ensures Fields(b, 4 * WORD, s.stack.Branches?, n) == s.stack.Addresses(n)
  {
    var t := s.stack;
    FieldsAt(b, 4 * WORD, t.Branches?, n);
    AddressesAt(t, n);
    forall i | 0 <= i < n
      ensures Fields(b, 4 * WORD, t.Branches?, n)[i] == t.Addresses(n)[i]
    {
      StackField(s, i);
      FieldOfCut(s, b, 4 * WORD + Span(t.Branches?, i), WORD);
    }
  }

  /** Decoding what was encoded gives back the call chain, or the branch sources that are
      not zero. If the record is cut short anywhere, or the result has too little room,
      what remains is the longest prefix that still fits; bytes behind the sample are not
      taken for a part of it. */
  lemma {:induction false} ChainRoundTrip(s: Sample, b: seq<Byte>, max: nat)
    requires Begins(s, b)
    ensures var a := s.stack.Addresses(Kept(s, |b|, max));
            Chain(b, s.stack.Branches?, max) == if s.stack.Frames? then a else NonZero(a)
  {
    if |b| >= 4 * WORD {
      CutFields(s, b);
      StackFields(s, b, Kept(s, |b|, max));
    }
  }

  /** An uncut record with enough room is decoded completely. */
  lemma {:induction false} FullRoundTrip(s: Sample, max: nat)
    requires s.Fits() && s.stack.Length() <= max
    ensures Kept(s, |s.Body()|, max) == s.stack.Length()
    ensures s.stack.Frames? ==> Chain(s.Body(), false, max) == s.stack.frames
    ensures s.stack.Branches? ==> Chain(s.Body(), true, max) == NonZero(Sources(s.stack.branches))
  {
    KeptAll(s, max);
    ChainRoundTrip(s, s.Body(), max);
    ShownIs(s.stack, s.stack.Length());
    ShownAll(s.stack);
  }

  lemma {:induction false} KeptAll(s: Sample, max: nat)
    requires s.stack.Length() <= max
    ensures Kept(s, |s.Body()|, max) == s.stack.Length()
  {
    JoinLength(s.stack.Elements(), s.stack.Branches?);
  }

  lemma {:induction false} ShownAll(t: Stack)
    ensures t.Shown(t.Length()) == if t.Frames? then t.frames else NonZero(Sources(t.branches))
  {
    if t.Frames? { assert t.frames[..|t.frames|] == t.frames; } else {
      assert Sources(t.branches)[..t.Length()] == Sources(t.branches);
    }
  }

  /** Where the branches come from. */
  ghost function Sources(bs: seq<Branch>): seq<nat> { seq(|bs|, i requires 0 <= i < |bs| => bs[i].from) }
}
