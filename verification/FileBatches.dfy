/**
 The canonical batch writers. A disk is a map from paths to bytes; one publish
 (a rename or an unlink) is one atomic step that can work, throw, or be the step
 at which the process dies. A batch checks every expected revision, publishes in
 path order, and rolls back in reverse order when a publish throws.
 */
module FileBatches {
  import opened Wrappers

  /** What the next publish does. A publish that throws may already have renamed. */
  datatype Fault = Works | Throws(tookEffect: bool) | Dies

  /** A revision is a digest of the bytes, taken to be free of collisions. */
  datatype Revision<B> = V1(bytes: B)

  datatype Expected<B> = Unchecked | MustBeAbsent | MustMatch(revision: Revision<B>)

  /** `bytes == None` deletes the path. */
  datatype Replacement<P, B> = Replacement(path: P, bytes: Option<B>, expected: Expected<B>)

  datatype Outcome = Applied | Rejected(error: Category) | RolledBack | RollbackFailed | Died

  function Get<P, B>(files: map<P, B>, p: P): Option<B> {
    if p in files then Some(files[p]) else None
  }

  function Put<P, B>(files: map<P, B>, p: P, bytes: Option<B>): map<P, B> {
    match bytes
    case Some(b) => files[p := b]
    case None => files - {p}
  }

  /** The disk after publishing `writes` from left to right. */
  function Apply<P, B>(files: map<P, B>, writes: seq<Replacement<P, B>>): map<P, B> {
    if writes == [] then files
    else
      var last := writes[|writes| - 1];
      Put(Apply(files, writes[..|writes| - 1]), last.path, last.bytes)
  }

  ghost predicate DistinctPaths<P, B>(writes: seq<Replacement<P, B>>) {
    forall i, j :: 0 <= i < j < |writes| ==> writes[i].path != writes[j].path
  }

  /** The expected revision recorded in a replacement agrees with the disk. */
  predicate Expects<P, B(==)>(files: map<P, B>, r: Replacement<P, B>) {
    match r.expected
    case Unchecked => true
    case MustBeAbsent => r.path !in files
    case MustMatch(revision) => r.path in files && V1(files[r.path]) == revision
  }

  /** The batch passes every check made before its first publish. */
  ghost predicate Admissible<P, B>(files: map<P, B>, writes: seq<Replacement<P, B>>, limit: nat) {
    && 0 < |writes| <= limit
    && DistinctPaths(writes)
    && forall r :: r in writes ==> Expects(files, r)
  }

  /** Each path of the batch holds its old or its new bytes; every other path is untouched. */
  ghost predicate Between<P(!new), B>(old_: map<P, B>, writes: seq<Replacement<P, B>>, now: map<P, B>) {
    && (forall i :: 0 <= i < |writes| ==>
          Get(now, writes[i].path) == Get(old_, writes[i].path) || Get(now, writes[i].path) == writes[i].bytes)
    && (forall p {:trigger Get(now, p)} :: (forall i :: 0 <= i < |writes| ==> writes[i].path != p) ==> Get(now, p) == Get(old_, p))
  }

  // ---- Laws of Apply ----

  lemma SameGetSameFiles<P(!new), B>(a: map<P, B>, b: map<P, B>)
    requires forall p :: Get(a, p) == Get(b, p)
    ensures a == b
  {
    forall p ensures p in a <==> p in b { assert Get(a, p) == Get(b, p); }
    assert a.Keys == b.Keys;
    forall p | p in a ensures a[p] == b[p] { assert Get(a, p) == Get(b, p); }
  }

  lemma {:induction false} ApplyElsewhere<P, B>(files: map<P, B>, writes: seq<Replacement<P, B>>, p: P)
    requires forall i :: 0 <= i < |writes| ==> writes[i].path != p
    ensures Get(Apply(files, writes), p) == Get(files, p)
  {
    if writes != [] {
      ApplyElsewhere(files, writes[..|writes| - 1], p);
    }
  }

  lemma {:induction false} ApplyAt<P, B>(files: map<P, B>, writes: seq<Replacement<P, B>>, i: nat)
    requires i < |writes| && DistinctPaths(writes)
    ensures Get(Apply(files, writes), writes[i].path) == writes[i].bytes
  {
    var init := writes[..|writes| - 1];
    if i < |init| {
      ApplyAt(files, init, i);
      assert init[i] == writes[i];
    }
  }

  lemma ApplyTwo<P, B>(files: map<P, B>, a: Replacement<P, B>, b: Replacement<P, B>)
    ensures Apply(files, [a, b]) == Put(Put(files, a.path, a.bytes), b.path, b.bytes)
  {
    ApplyOne(files, a);
    assert [a, b][..1] == [a];
  }

  lemma ApplyOne<P, B>(files: map<P, B>, a: Replacement<P, B>)
    ensures Apply(files, [a]) == Put(files, a.path, a.bytes)
  {
    assert [a][..0] == [];
    assert Apply(files, []) == files;
  }

  lemma ApplyIn<P, B>(files: map<P, B>, writes: seq<Replacement<P, B>>, w: Replacement<P, B>)
    requires w in writes && DistinctPaths(writes)
    ensures Get(Apply(files, writes), w.path) == w.bytes
  {
    var i :| 0 <= i < |writes| && writes[i] == w;
    ApplyAt(files, writes, i);
  }

  lemma DistinctConcat<P, B>(a: seq<Replacement<P, B>>, b: seq<Replacement<P, B>>)
    requires DistinctPaths(a) && DistinctPaths(b)
    requires forall v, w :: v in a && w in b ==> v.path != w.path
    ensures DistinctPaths(a + b)
  {
    var c := a + b;
    forall i, j | 0 <= i < j < |c| ensures c[i].path != c[j].path {
      assert i < |a| ==> c[i] in a;
      assert |a| <= j ==> c[j] in b;
    }
  }

  lemma ApplyBetween<P(!new), B>(files: map<P, B>, writes: seq<Replacement<P, B>>)
    requires DistinctPaths(writes)
    ensures Between(files, writes, Apply(files, writes))
  {
    ApplyPrefixBetween(files, writes, |writes|);
    assert writes[..|writes|] == writes;
  }

  lemma ApplyPrefixBetween<P(!new), B>(files: map<P, B>, writes: seq<Replacement<P, B>>, k: nat)
    requires k <= |writes| && DistinctPaths(writes)
    ensures Between(files, writes, Apply(files, writes[..k]))
  {
    var now := Apply(files, writes[..k]);
    forall i | 0 <= i < |writes|
      ensures Get(now, writes[i].path) == Get(files, writes[i].path) || Get(now, writes[i].path) == writes[i].bytes
    {
      if i < k {
        ApplyAt(files, writes[..k], i);
      } else {
        ApplyElsewhere(files, writes[..k], writes[i].path);
      }
    }
    forall p | forall i :: 0 <= i < |writes| ==> writes[i].path != p
      ensures Get(now, p) == Get(files, p)
    {
      ApplyElsewhere(files, writes[..k], p);
    }
  }

  lemma {:induction false} ApplyConcat<P, B>(files: map<P, B>, first: seq<Replacement<P, B>>, second: seq<Replacement<P, B>>)
    ensures Apply(files, first + second) == Apply(Apply(files, first), second)
  {
    if second == [] {
      assert first + second == first;
    } else {
      var init := second[..|second| - 1];
      assert (first + second)[..|first + second| - 1] == first + init;
      ApplyConcat(files, first, init);
    }
  }

  /** Writing distinct paths in another order leaves the same disk. */
  lemma ApplyPermuted<P(!new), B>(files: map<P, B>, a: seq<Replacement<P, B>>, b: seq<Replacement<P, B>>)
    requires multiset(a) == multiset(b) && DistinctPaths(a)
    ensures DistinctPaths(b)
    ensures Apply(files, a) == Apply(files, b)
  {
    PermutationKeepsDistinct(a, b);
    forall p ensures Get(Apply(files, a), p) == Get(Apply(files, b), p) {
      if i :| 0 <= i < |a| && a[i].path == p {
        assert a[i] in multiset(b);
        var j :| 0 <= j < |b| && b[j] == a[i];
        ApplyAt(files, a, i);
        ApplyAt(files, b, j);
      } else {
        forall j | 0 <= j < |b| ensures b[j].path != p {
          assert b[j] in multiset(a);
        }
        ApplyElsewhere(files, a, p);
        ApplyElsewhere(files, b, p);
      }
    }
    SameGetSameFiles(Apply(files, a), Apply(files, b));
  }

  lemma DistinctOnce<P, B>(a: seq<Replacement<P, B>>, r: Replacement<P, B>, s: Replacement<P, B>)
    requires DistinctPaths(a) && r in a && s in a && r.path == s.path
    ensures r == s && multiset(a)[r] == 1
  {
    var k :| 0 <= k < |a| && a[k] == r;
    assert a == a[..k] + [a[k]] + a[k+1..];
  }

  lemma OccursTwice<T>(b: seq<T>, i: nat, j: nat)
    requires i < j < |b|
    ensures b[i] == b[j] ==> multiset(b)[b[i]] >= 2
  {
    assert b == b[..j] + b[j..];
    assert b[i] == b[..j][i] && b[j] == b[j..][0];
  }

  lemma PermutationKeepsDistinct<P, B>(a: seq<Replacement<P, B>>, b: seq<Replacement<P, B>>)
    requires multiset(a) == multiset(b) && DistinctPaths(a)
    ensures DistinctPaths(b)
  {
    forall i, j | 0 <= i < j < |b| ensures b[i].path != b[j].path {
      assert b[i] in multiset(a) && b[j] in multiset(a);
      OccursTwice(b, i, j);
      if b[i].path == b[j].path {
        DistinctOnce(a, b[i], b[j]);
      }
    }
  }

  // ---- Path order ----

  function InsertByPath<P, B>(leq: (P, P) -> bool, r: Replacement<P, B>, sorted: seq<Replacement<P, B>>): (s: seq<Replacement<P, B>>)
    ensures multiset(s) == multiset(sorted) + multiset{r}
    ensures |s| == |sorted| + 1
  {
    if sorted == [] then [r]
    else if leq(r.path, sorted[0].path) then
      assert [sorted[0]] + sorted[1..] == sorted;
      [r] + sorted
    else
      assert [sorted[0]] + sorted[1..] == sorted;
      [sorted[0]] + InsertByPath(leq, r, sorted[1..])
  }

  /** The batch in publication order; `leq` is the path comparison of the writer. */
  function InPathOrder<P, B>(leq: (P, P) -> bool, writes: seq<Replacement<P, B>>): (s: seq<Replacement<P, B>>)
    ensures multiset(s) == multiset(writes)
    ensures |s| == |writes|
  {
    if writes == [] then []
    else
      assert [writes[0]] + writes[1..] == writes;
      InsertByPath(leq, writes[0], InPathOrder(leq, writes[1..]))
  }

  ghost predicate IsOrder<P(!new)>(leq: (P, P) -> bool) {
    && (forall a, b {:trigger leq(a, b)} :: leq(a, b) || leq(b, a))
    && forall a, b, c {:trigger leq(a, b), leq(b, c)} :: leq(a, b) && leq(b, c) ==> leq(a, c)
  }

  ghost predicate SortedByPath<P, B>(leq: (P, P) -> bool, s: seq<Replacement<P, B>>) {
    forall i, j :: 0 <= i < j < |s| ==> leq(s[i].path, s[j].path)
  }

  lemma {:induction false} InsertKeepsOrder<P(!new), B>(leq: (P, P) -> bool, r: Replacement<P, B>, sorted: seq<Replacement<P, B>>)
    requires IsOrder(leq) && SortedByPath(leq, sorted)
    ensures SortedByPath(leq, InsertByPath(leq, r, sorted))
  {
    if sorted != [] && !leq(r.path, sorted[0].path) {
      var rest := InsertByPath(leq, r, sorted[1..]);
      InsertKeepsOrder(leq, r, sorted[1..]);
      forall i | 0 <= i < |rest| ensures leq(sorted[0].path, rest[i].path) {
        assert rest[i] in multiset(rest);
        assert rest[i] in multiset(sorted[1..]) || rest[i] == r;
      }
    }
  }

  /** With a total order of paths, the batch is published in ascending order. */
  lemma {:induction false} InPathOrderIsSorted<P(!new), B>(leq: (P, P) -> bool, writes: seq<Replacement<P, B>>)
    requires IsOrder(leq)
    ensures SortedByPath(leq, InPathOrder(leq, writes))
  {
    if writes != [] {
      InPathOrderIsSorted(leq, writes[1..]);
      InsertKeepsOrder(leq, writes[0], InPathOrder(leq, writes[1..]));
    }
  }

  lemma SameElements<P, B>(leq: (P, P) -> bool, writes: seq<Replacement<P, B>>)
    ensures forall r :: r in InPathOrder(leq, writes) <==> r in writes
  {
    var s := InPathOrder(leq, writes);
    forall r ensures r in s <==> r in writes {
      assert r in multiset(s) <==> r in multiset(writes);
    }
  }

  // ---- The script of faults ----

  function FaultAt(faults: seq<Fault>, k: nat): Fault {
    if k < |faults| then faults[k] else Works
  }

  function Skip(faults: seq<Fault>, k: nat): seq<Fault> {
    if k <= |faults| then faults[k..] else []
  }

  /** How many of the next `n` publishes work before one does not. */
  function FirstFault(faults: seq<Fault>, n: nat): (k: nat)
    ensures k <= n
    ensures forall i :: 0 <= i < k ==> FaultAt(faults, i) == Works
    ensures k < n ==> FaultAt(faults, k) != Works
  {
    if n == 0 then 0
    else
      var k := FirstFault(faults, n - 1);
      if k == n - 1 && FaultAt(faults, k) == Works then n else k
  }

  lemma FirstFaultIs(faults: seq<Fault>, n: nat, k: nat)
    requires k <= n
    requires forall i :: 0 <= i < k ==> FaultAt(faults, i) == Works
    requires k < n ==> FaultAt(faults, k) != Works
    ensures FirstFault(faults, n) == k
  {
  }

  /** Two batches in a row meet the script as one. */
  lemma FirstFaultConcat(faults: seq<Fault>, n: nat, m: nat)
    requires FirstFault(faults, n) == n
    ensures FirstFault(faults, n + m) == n + FirstFault(Skip(faults, n), m)
  {
    var k := FirstFault(Skip(faults, n), m);
    forall i | 0 <= i < n + k ensures FaultAt(faults, i) == Works {
      if n <= i {
        assert FaultAt(faults, i) == FaultAt(Skip(faults, n), i - n);
      }
    }
    assert k < m ==> FaultAt(faults, n + k) == FaultAt(Skip(faults, n), k);
    FirstFaultIs(faults, n + m, n + k);
  }

  /**
   A crash-only account of a run of writes: all of them happened, or one failed, and
   if the process died at it then exactly the writes before that step happened.
   */
  ghost predicate RanTo<P, B>(start: map<P, B>, script: seq<Fault>, steps: seq<Replacement<P, B>>, o: Outcome, end: map<P, B>, rest: seq<Fault>) {
    RanUpTo(FirstFault(script, |steps|), start, script, steps, o, end, rest)
  }

  ghost predicate RanUpTo<P, B>(f: nat, start: map<P, B>, script: seq<Fault>, steps: seq<Replacement<P, B>>, o: Outcome, end: map<P, B>, rest: seq<Fault>)
    requires f <= |steps|
  {
    if f == |steps| then
      o == Applied && end == Apply(start, steps) && rest == Skip(script, |steps|)
    else
      o != Applied && (FaultAt(script, f).Dies? ==> o == Died && end == Apply(start, steps[..f]))
  }

  lemma PrefixThen<P, B>(start: map<P, B>, a: seq<Replacement<P, B>>, b: seq<Replacement<P, B>>, f: nat)
    requires f <= |b|
    ensures Apply(start, (a + b)[..|a| + f]) == Apply(Apply(start, a), b[..f])
  {
    ApplyConcat(start, a, b[..f]);
    assert (a + b)[..|a| + f] == a + b[..f];
  }

  lemma RanAllThen<P, B>(start: map<P, B>, script: seq<Fault>, a: seq<Replacement<P, B>>, b: seq<Replacement<P, B>>, o: Outcome, end: map<P, B>, rest: seq<Fault>)
    requires RanUpTo(|b|, Apply(start, a), Skip(script, |a|), b, o, end, rest)
    ensures RanUpTo(|a + b|, start, script, a + b, o, end, rest)
  {
    assert |a + b| == |a| + |b|;
    SkipSkip(script, |a|, |b|);
    ApplyConcat(start, a, b);
  }

  lemma RanUpToThen<P, B>(f: nat, start: map<P, B>, script: seq<Fault>, a: seq<Replacement<P, B>>, b: seq<Replacement<P, B>>, o: Outcome, end: map<P, B>, rest: seq<Fault>)
    requires f <= |b| && RanUpTo(f, Apply(start, a), Skip(script, |a|), b, o, end, rest)
    ensures RanUpTo(|a| + f, start, script, a + b, o, end, rest)
  {
    if f == |b| {
      RanAllThen(start, script, a, b, o, end, rest);
    } else {
      SkipSkip(script, |a|, f);
      PrefixThen(start, a, b, f);
    }
  }

  lemma RanToThen<P, B>(start: map<P, B>, script: seq<Fault>, a: seq<Replacement<P, B>>, b: seq<Replacement<P, B>>, o: Outcome, end: map<P, B>, rest: seq<Fault>)
    requires FirstFault(script, |a|) == |a|
    requires RanTo(Apply(start, a), Skip(script, |a|), b, o, end, rest)
    ensures RanTo(start, script, a + b, o, end, rest)
  {
    FirstFaultConcat(script, |a|, |b|);
    RanUpToThen(FirstFault(Skip(script, |a|), |b|), start, script, a, b, o, end, rest);
  }

  lemma SkipSkip(faults: seq<Fault>, a: nat, b: nat)
    ensures Skip(Skip(faults, a), b) == Skip(faults, a + b)
    ensures FaultAt(Skip(faults, a), b) == FaultAt(faults, a + b)
  {
  }

  /** Publishes that all work do so in parts. */
  lemma FirstFaultSplits(script: seq<Fault>, m: nat, k: nat)
    requires FirstFault(script, m + k) == m + k
    ensures FirstFault(script, m) == m && FirstFault(Skip(script, m), k) == k && Skip(Skip(script, m), k) == Skip(script, m + k)
  {
    FirstFaultIs(script, m, m);
    FirstFaultConcat(script, m, k);
    SkipSkip(script, m, k);
  }

  lemma RanToShort<P, B>(start: map<P, B>, script: seq<Fault>, a: seq<Replacement<P, B>>, b: seq<Replacement<P, B>>, o: Outcome, end: map<P, B>, rest: seq<Fault>)
    requires FirstFault(script, |a|) < |a|
    requires RanTo(start, script, a, o, end, rest)
    ensures RanTo(start, script, a + b, o, end, rest)
  {
    var f := FirstFault(script, |a|);
    FirstFaultIs(script, |a + b|, f);
    assert (a + b)[..f] == a[..f];
  }

  lemma ApplyPrefixOfConcat<P, B>(files: map<P, B>, a: seq<Replacement<P, B>>, b: seq<Replacement<P, B>>, k: nat)
    requires k <= |a| + |b|
    ensures Apply(files, (a + b)[..k]) == if k <= |a| then Apply(files, a[..k]) else Apply(Apply(files, a), b[..k - |a|])
  {
    if k <= |a| {
      assert (a + b)[..k] == a[..k];
    } else {
      assert (a + b)[..k] == a + b[..k - |a|];
      ApplyConcat(files, a, b[..k - |a|]);
    }
  }

  lemma SortedPrefixBetween<P(!new), B>(leq: (P, P) -> bool, files: map<P, B>, writes: seq<Replacement<P, B>>, k: nat)
    requires DistinctPaths(writes) && k <= |writes|
    ensures Between(files, writes, Apply(files, InPathOrder(leq, writes)[..k]))
    ensures k == |writes| ==> Apply(files, InPathOrder(leq, writes)[..k]) == Apply(files, writes)
  {
    var ordered := InPathOrder(leq, writes);
    PermutationKeepsDistinct(writes, ordered);
    ApplyPrefixBetween(files, ordered, k);
    BetweenPermuted(files, ordered, writes, Apply(files, ordered[..k]));
    ApplyPermuted(files, writes, ordered);
    assert ordered[..|ordered|] == ordered;
  }

  // ---- Undoing ----

  /** A publish that threw after its rename leaves one write nobody recorded. */
  function WithStray<P, B>(files: map<P, B>, stray: Option<Replacement<P, B>>): map<P, B> {
    match stray
    case None => files
    case Some(w) => Put(files, w.path, w.bytes)
  }

  /** The write left behind when publish `f` of the batch throws. */
  function Stray<P, B>(writes: seq<Replacement<P, B>>, f: nat, fault: Fault): Option<Replacement<P, B>>
    requires f < |writes|
  {
    if fault == Throws(true) then Some(writes[f]) else None
  }

  // ---- What a failed batch leaves ----

  predicate TookEffect(fault: Fault) { fault == Works || fault == Throws(true) }

  /** How many replacements a throw at publish `f` finds recorded. */
  function Recorded(f: nat, recordFirst: bool): nat {
    if recordFirst then f + 1 else f
  }

  /** Going down from `u`, the rollback reached replacement `i` alive and its publish took effect. */
  predicate Undone(rest: seq<Fault>, u: nat, i: nat) {
    && i < u
    && (forall m :: 0 <= m < u - 1 - i ==> !FaultAt(rest, m).Dies?)
    && TookEffect(FaultAt(rest, u - 1 - i))
  }

  /** Publish `i` took effect, and the rollback as far as `left` has not undone it. */
  predicate Held(fault: Fault, rest: seq<Fault>, f: nat, recordFirst: bool, left: nat, i: nat) {
    && (i < f || (i == f && TookEffect(fault)))
    && !(left <= i && fault.Throws? && Undone(rest, Recorded(f, recordFirst), i))
  }

  /** A batch that failed at publish `f` leaves new bytes exactly where they were published and not undone. */
  predicate Stays(fault: Fault, rest: seq<Fault>, f: nat, recordFirst: bool, i: nat) {
    Held(fault, rest, f, recordFirst, 0, i)
  }

  ghost predicate HeldDisk<P(!new), B>(files: map<P, B>, writes: seq<Replacement<P, B>>, f: nat, fault: Fault, rest: seq<Fault>, recordFirst: bool, left: nat, now: map<P, B>) {
    && (forall i :: 0 <= i < |writes| ==>
          Get(now, writes[i].path) == if Held(fault, rest, f, recordFirst, left, i) then writes[i].bytes else Get(files, writes[i].path))
    && (forall p {:trigger Get(now, p)} :: (forall i :: 0 <= i < |writes| ==> writes[i].path != p) ==> Get(now, p) == Get(files, p))
  }

  ghost predicate LeftBy<P(!new), B>(files: map<P, B>, writes: seq<Replacement<P, B>>, f: nat, fault: Fault, rest: seq<Fault>, recordFirst: bool, now: map<P, B>) {
    HeldDisk(files, writes, f, fault, rest, recordFirst, 0, now)
  }

  /** The account of a batch by the first publish that does not work. */
  ghost predicate LeftByScript<P(!new), B>(files: map<P, B>, writes: seq<Replacement<P, B>>, script: seq<Fault>, recordFirst: bool, now: map<P, B>) {
    var f := FirstFault(script, |writes|);
    f < |writes| ==> LeftBy(files, writes, f, FaultAt(script, f), Skip(script, f + 1), recordFirst, now)
  }

  /** Before the first undo the publishes up to `f` hold, the failing one if it took effect. */
  lemma NothingUndone<P(!new), B>(files: map<P, B>, writes: seq<Replacement<P, B>>, f: nat, fault: Fault, rest: seq<Fault>, recordFirst: bool)
    requires f < |writes| && DistinctPaths(writes) && fault != Works
    ensures HeldDisk(files, writes, f, fault, rest, recordFirst, Recorded(f, recordFirst), WithStray(Apply(files, writes[..f]), Stray(writes, f, fault)))
    ensures fault == Dies ==> LeftBy(files, writes, f, fault, rest, recordFirst, Apply(files, writes[..f]))
  {
    var now := WithStray(Apply(files, writes[..f]), Stray(writes, f, fault));
    forall i | 0 <= i < |writes|
      ensures Get(now, writes[i].path) == if i < f || (i == f && TookEffect(fault)) then writes[i].bytes else Get(files, writes[i].path)
    {
      if i < f {
        ApplyAt(files, writes[..f], i);
      } else {
        ApplyElsewhere(files, writes[..f], writes[i].path);
      }
    }
    forall p | forall i :: 0 <= i < |writes| ==> writes[i].path != p ensures Get(now, p) == Get(files, p) {
      ApplyElsewhere(files, writes[..f], p);
    }
  }

  lemma UndoStep<P(!new), B>(files: map<P, B>, writes: seq<Replacement<P, B>>, f: nat, fault: Fault, rest: seq<Fault>, recordFirst: bool, left: nat, now: map<P, B>)
    requires f < |writes| && DistinctPaths(writes) && fault.Throws?
    requires left < Recorded(f, recordFirst)
    requires forall m :: 0 <= m < Recorded(f, recordFirst) - 1 - left ==> !FaultAt(rest, m).Dies?
    requires HeldDisk(files, writes, f, fault, rest, recordFirst, left + 1, now)
    ensures HeldDisk(files, writes, f, fault, rest, recordFirst, left,
              if TookEffect(FaultAt(rest, Recorded(f, recordFirst) - 1 - left)) then Put(now, writes[left].path, Get(files, writes[left].path)) else now)
  {
    var undone := Put(now, writes[left].path, Get(files, writes[left].path));
    assert forall i :: 0 <= i < |writes| && i != left ==>
      (Held(fault, rest, f, recordFirst, left, i) <==> Held(fault, rest, f, recordFirst, left + 1, i));
    forall p ensures Get(undone, p) == if p == writes[left].path then Get(files, p) else Get(now, p) {}
  }

  /** A rollback that died on the way to `left` undoes nothing more. */
  lemma DiedUndoing<P(!new), B>(files: map<P, B>, writes: seq<Replacement<P, B>>, f: nat, fault: Fault, rest: seq<Fault>, recordFirst: bool, left: nat, now: map<P, B>)
    requires left < Recorded(f, recordFirst) && FaultAt(rest, Recorded(f, recordFirst) - 1 - left).Dies?
    requires HeldDisk(files, writes, f, fault, rest, recordFirst, left + 1, now)
    ensures LeftBy(files, writes, f, fault, rest, recordFirst, now)
  {
    var u := Recorded(f, recordFirst);
    forall i | 0 <= i <= left ensures !Undone(rest, u, i) {
      assert FaultAt(rest, u - 1 - left).Dies?;
    }
    assert forall i :: 0 <= i < |writes| ==> (Held(fault, rest, f, recordFirst, 0, i) <==> Held(fault, rest, f, recordFirst, left + 1, i));
  }

  lemma LeftIsBetween<P(!new), B>(files: map<P, B>, writes: seq<Replacement<P, B>>, f: nat, fault: Fault, rest: seq<Fault>, recordFirst: bool, now: map<P, B>)
    requires LeftBy(files, writes, f, fault, rest, recordFirst, now)
    ensures Between(files, writes, now)
  {
  }

  lemma LeftByScriptIsBetween<P(!new), B>(files: map<P, B>, writes: seq<Replacement<P, B>>, script: seq<Fault>, recordFirst: bool, now: map<P, B>)
    requires FirstFault(script, |writes|) < |writes| && LeftByScript(files, writes, script, recordFirst, now)
    ensures Between(files, writes, now)
  {
    var f := FirstFault(script, |writes|);
    LeftIsBetween(files, writes, f, FaultAt(script, f), Skip(script, f + 1), recordFirst, now);
  }

  /** When every undo works, at most the failing publish is left. */
  lemma AllUndone<P(!new), B>(files: map<P, B>, writes: seq<Replacement<P, B>>, f: nat, fault: Fault, rest: seq<Fault>, recordFirst: bool, now: map<P, B>)
    requires f < |writes| && DistinctPaths(writes) && fault.Throws?
    requires FirstFault(rest, Recorded(f, recordFirst)) == Recorded(f, recordFirst)
    requires LeftBy(files, writes, f, fault, rest, recordFirst, now)
    ensures now == if recordFirst then files else WithStray(files, Stray(writes, f, fault))
  {
    var u := Recorded(f, recordFirst);
    var target := if recordFirst then files else WithStray(files, Stray(writes, f, fault));
    forall i | 0 <= i < u ensures Undone(rest, u, i) {}
    forall p ensures Get(now, p) == Get(target, p) {
      if i :| 0 <= i < |writes| && writes[i].path == p {
        assert Held(fault, rest, f, recordFirst, 0, i) <==> (i == f && !recordFirst && TookEffect(fault));
      }
    }
    SameGetSameFiles(now, target);
  }

  /** A rollback of `u` publishes dies if one of them does, and otherwise is complete exactly if all work. */
  ghost predicate EndsAsUndone(rest: seq<Fault>, u: nat, o: Outcome, after: seq<Fault>) {
    && (o.RolledBack? || o.RollbackFailed? || o.Died?)
    && (o.Died? <==> exists m :: 0 <= m < u && FaultAt(rest, m).Dies?)
    && (o.RolledBack? <==> FirstFault(rest, u) == u)
    && (!o.Died? ==> after == Skip(rest, u))
  }

  lemma FirstThrow<P(!new), B>(files: map<P, B>, writes: seq<Replacement<P, B>>, script: seq<Fault>, f: nat, recordFirst: bool, now: map<P, B>)
    requires f < |writes| && (forall i :: 0 <= i < f ==> FaultAt(script, i) == Works) && FaultAt(script, f) != Works
    requires LeftBy(files, writes, f, FaultAt(script, f), Skip(script, f + 1), recordFirst, now)
    ensures FirstFault(script, |writes|) == f
    ensures LeftByScript(files, writes, script, recordFirst, now) && Between(files, writes, now)
  {
    FirstFaultIs(script, |writes|, f);
    LeftIsBetween(files, writes, f, FaultAt(script, f), Skip(script, f + 1), recordFirst, now);
  }

  lemma ThrownBatch<P(!new), B>(files: map<P, B>, writes: seq<Replacement<P, B>>, script: seq<Fault>, f: nat, recordFirst: bool, o: Outcome, now: map<P, B>, after: seq<Fault>)
    requires f < |writes| && DistinctPaths(writes)
    requires (forall i :: 0 <= i < f ==> FaultAt(script, i) == Works) && FaultAt(script, f).Throws?
    requires LeftBy(files, writes, f, FaultAt(script, f), Skip(script, f + 1), recordFirst, now)
    requires EndsAsUndone(Skip(script, f + 1), Recorded(f, recordFirst), o, after)
    ensures FirstFault(script, |writes|) == f
    ensures LeftByScript(files, writes, script, recordFirst, now) && Between(files, writes, now)
    ensures o.RolledBack? ==> now == if recordFirst then files else WithStray(files, Stray(writes, f, FaultAt(script, f)))
  {
    FirstThrow(files, writes, script, f, recordFirst, now);
    if o == RolledBack {
      AllUndone(files, writes, f, FaultAt(script, f), Skip(script, f + 1), recordFirst, now);
    }
  }

  // ---- The disk ----

  /** The undo publishes made so far: none died, and whether one threw. */
  ghost predicate UndidSoFar(script: seq<Fault>, done: nat, failed: bool) {
    && (forall m :: 0 <= m < done ==> !FaultAt(script, m).Dies?)
    && (failed <==> exists m :: 0 <= m < done && FaultAt(script, m) != Works)
  }

  lemma UndidOneMore(script: seq<Fault>, done: nat, failed: bool)
    requires UndidSoFar(script, done, failed) && FaultAt(script, done) != Dies
    ensures UndidSoFar(script, done + 1, failed || FaultAt(script, done) != Works)
  {
  }

  lemma UndidAll(script: seq<Fault>, undo: nat, failed: bool)
    requires UndidSoFar(script, undo, failed)
    ensures failed <==> FirstFault(script, undo) < undo
  {
    if !failed {
      FirstFaultIs(script, undo, undo);
    }
  }

  class Disk<P(==,!new), B(==,!new)> {
    var files: map<P, B>
    /** What the coming publishes do; once used up, every publish works. */
    var faults: seq<Fault>

    constructor (files: map<P, B>, faults: seq<Fault>)
      ensures this.files == files && this.faults == faults
    {
      this.files := files;
      this.faults := faults;
    }

    method Publish(path: P, bytes: Option<B>) returns (fault: Fault)
      modifies this
      ensures fault == FaultAt(old(faults), 0)
      ensures faults == Skip(old(faults), 1)
      ensures files == if fault == Works || fault == Throws(true) then Put(old(files), path, bytes) else old(files)
    {
      fault := FaultAt(faults, 0);
      faults := Skip(faults, 1);
      if fault == Works || fault == Throws(true) {
        files := Put(files, path, bytes);
      }
    }

    /** The checks made before the first publish, in publication order. */
    method CheckBatch(ordered: seq<Replacement<P, B>>, limit: nat) returns (refusal: Option<Category>, before: map<P, Option<B>>)
      ensures refusal == None <==> Admissible(files, ordered, limit)
      ensures refusal == Some(ResourceLimit) <==> !(0 < |ordered| <= limit)
      ensures refusal == Some(PathSafety) ==> !DistinctPaths(ordered)
      ensures refusal == Some(Synchronization) ==> exists r :: r in ordered && !Expects(files, r)
      ensures refusal in {None, Some(ResourceLimit), Some(PathSafety), Some(Synchronization)}
      ensures refusal == None ==> forall r :: r in ordered ==> r.path in before && before[r.path] == Get(files, r.path)
    {
      before := map[];
      if !(0 < |ordered| <= limit) {
        return Some(ResourceLimit), before;
      }
      var seen := {};
      for i := 0 to |ordered|
        invariant seen == set j | 0 <= j < i :: ordered[j].path
        invariant DistinctPaths(ordered[..i])
        invariant forall j :: 0 <= j < i ==> Expects(files, ordered[j])
        invariant forall j :: 0 <= j < i ==> ordered[j].path in before && before[ordered[j].path] == Get(files, ordered[j].path)
      {
        var r := ordered[i];
        if r.path in seen {
          return Some(PathSafety), before;
        }
        seen := seen + {r.path};
        if !Expects(files, r) {
          return Some(Synchronization), before;
        }
        before := before[r.path := Get(files, r.path)];
      }
      assert ordered[..|ordered|] == ordered;
      refusal := None;
    }

    /**
     The batch writer. `recordFirst` is the order of the two statements of the
     publication loop: recording a replacement before or after publishing it.
     */
    method ApplyBatch(leq: (P, P) -> bool, replacements: seq<Replacement<P, B>>, limit: nat, recordFirst: bool)
      returns (o: Outcome)
      modifies this
      // Refused exactly when a check fails, and then nothing happened.
      ensures o.Rejected? <==> !Admissible(old(files), replacements, limit)
      ensures o.Rejected? ==> files == old(files) && faults == old(faults)
      ensures o.Rejected? ==> o.error in {ResourceLimit, PathSafety, Synchronization}
      ensures o == Rejected(ResourceLimit) <==> !(0 < |replacements| <= limit)
      ensures o == Rejected(PathSafety) ==> !DistinctPaths(replacements)
      ensures o == Rejected(Synchronization) ==> exists r :: r in replacements && !Expects(old(files), r)
      // Applied exactly when every publish works, and then the whole batch holds and nothing else changed.
      ensures o.Applied? <==> Admissible(old(files), replacements, limit) && FirstFault(old(faults), |replacements|) == |replacements|
      ensures o.Applied? ==> files == Apply(old(files), replacements) && faults == Skip(old(faults), |replacements|)
      // Whatever happened, each path of the batch is old or new.
      ensures Admissible(old(files), replacements, limit) ==> Between(old(files), replacements, files)
      // Dying at publish f leaves exactly the first f writes of the path order.
      ensures Admissible(old(files), replacements, limit) ==>
        RanTo(old(files), old(faults), InPathOrder(leq, replacements), o, files, faults)
      // A failed batch leaves exactly what took effect and was not undone.
      ensures Admissible(old(files), replacements, limit) ==>
        LeftByScript(old(files), InPathOrder(leq, replacements), old(faults), recordFirst, files)
      // A throw at publish f is undone exactly when the rollback publishes work, up to the failing write itself.
      ensures
        var f := FirstFault(old(faults), |replacements|);
        Admissible(old(files), replacements, limit) && f < |replacements| && FaultAt(old(faults), f).Throws? ==>
          && EndsAsUndone(Skip(old(faults), f + 1), Recorded(f, recordFirst), o, faults)
          && (o.RolledBack? ==>
                files == if recordFirst then old(files)
                         else WithStray(old(files), Stray(InPathOrder(leq, replacements), f, FaultAt(old(faults), f))))
    {
      var ordered := InPathOrder(leq, replacements);
      ghost var start := files;
      OrderKeepsAdmissible(leq, start, replacements, limit);
      var refusal, before := CheckBatch(ordered, limit);
      if refusal != None {
        OrderKeepsRefusal(leq, start, replacements);
        return Rejected(refusal.value);
      }
      o := PublishInOrder(ordered, before, recordFirst);
      BatchInAnyOrder(leq, start, replacements, files);
    }

    /** The publication loop of a batch whose checks have passed. */
    method PublishInOrder(ordered: seq<Replacement<P, B>>, before: map<P, Option<B>>, recordFirst: bool) returns (o: Outcome)
      requires DistinctPaths(ordered)
      requires forall r :: r in ordered ==> r.path in before && before[r.path] == Get(files, r.path)
      modifies this
      ensures !o.Rejected?
      ensures Between(old(files), ordered, files)
      ensures o.Applied? <==> FirstFault(old(faults), |ordered|) == |ordered|
      ensures o.Applied? ==> files == Apply(old(files), ordered) && faults == Skip(old(faults), |ordered|)
      ensures
        var f := FirstFault(old(faults), |ordered|);
        f < |ordered| && FaultAt(old(faults), f).Dies? ==>
          && o == Died
          && files == Apply(old(files), ordered[..f])
          && faults == Skip(old(faults), f + 1)
      ensures LeftByScript(old(files), ordered, old(faults), recordFirst, files)
      ensures
        var f := FirstFault(old(faults), |ordered|);
        f < |ordered| && FaultAt(old(faults), f).Throws? ==>
          && EndsAsUndone(Skip(old(faults), f + 1), Recorded(f, recordFirst), o, faults)
          && (o.RolledBack? ==> files == if recordFirst then old(files) else WithStray(old(files), Stray(ordered, f, FaultAt(old(faults), f))))
    {
      var n := |ordered|;
      ghost var start := files;
      ghost var script := faults;
      var applied := 0;
      while applied < n
        invariant 0 <= applied <= n
        invariant files == Apply(start, ordered[..applied])
        invariant faults == Skip(script, applied)
        invariant forall i :: 0 <= i < applied ==> FaultAt(script, i) == Works
      {
        assert ordered[..applied + 1][..applied] == ordered[..applied];
        var r := ordered[applied];
        var fault := Publish(r.path, r.bytes);
        assert fault == FaultAt(script, applied);
        if fault != Works {
          if fault == Dies {
            FirstFaultIs(script, n, applied);
            ApplyPrefixBetween(start, ordered, applied);
            NothingUndone(start, ordered, applied, fault, faults, recordFirst);
            return Died;
          }
          o := RollBack(start, ordered, before, applied, recordFirst, fault);
          ThrownBatch(start, ordered, script, applied, recordFirst, o, files, faults);
          return;
        }
        applied := applied + 1;
      }
      assert ordered[..n] == ordered;
      FirstFaultIs(script, n, n);
      ApplyPrefixBetween(start, ordered, n);
      o := Applied;
    }

    /** Put back the old bytes of one replacement. */
    method UndoOne(ghost start: map<P, B>, ordered: seq<Replacement<P, B>>, before: map<P, Option<B>>, ghost f: nat, ghost recordFirst: bool, ghost fault: Fault, ghost script: seq<Fault>, left: nat)
      returns (outcome: Fault)
      requires f < |ordered| && DistinctPaths(ordered) && fault.Throws? && left < Recorded(f, recordFirst)
      requires ordered[left].path in before && before[ordered[left].path] == Get(start, ordered[left].path)
      requires forall m :: 0 <= m < Recorded(f, recordFirst) - 1 - left ==> !FaultAt(script, m).Dies?
      requires faults == Skip(script, Recorded(f, recordFirst) - 1 - left)
      requires HeldDisk(start, ordered, f, fault, script, recordFirst, left + 1, files)
      modifies this
      ensures outcome == FaultAt(script, Recorded(f, recordFirst) - 1 - left)
      ensures faults == Skip(script, Recorded(f, recordFirst) - left)
      ensures outcome == Dies ==> LeftBy(start, ordered, f, fault, script, recordFirst, files)
      ensures outcome != Dies ==> HeldDisk(start, ordered, f, fault, script, recordFirst, left, files)
    {
      UndoStep(start, ordered, f, fault, script, recordFirst, left, files);
      ghost var here := files;
      outcome := Publish(ordered[left].path, before[ordered[left].path]);
      if outcome == Dies {
        DiedUndoing(start, ordered, f, fault, script, recordFirst, left, here);
      }
    }

    /** Undo the recorded replacements, the last one first, going on after a rollback publish that throws. */
    method RollBack(ghost start: map<P, B>, ordered: seq<Replacement<P, B>>, before: map<P, Option<B>>, f: nat, recordFirst: bool, ghost fault: Fault)
      returns (o: Outcome)
      requires f < |ordered| && DistinctPaths(ordered)
      requires fault.Throws?
      requires files == WithStray(Apply(start, ordered[..f]), Stray(ordered, f, fault))
      requires forall r :: r in ordered ==> r.path in before && before[r.path] == Get(start, r.path)
      modifies this
      ensures LeftBy(start, ordered, f, fault, old(faults), recordFirst, files)
      ensures EndsAsUndone(old(faults), Recorded(f, recordFirst), o, faults)
    {
      ghost var script := faults;
      ghost var undo := Recorded(f, recordFirst);
      NothingUndone(start, ordered, f, fault, script, recordFirst);
      var left := if recordFirst then f + 1 else f;
      var failed := false;
      ghost var done := 0;
      while left > 0
        invariant 0 <= left <= undo
        invariant done == undo - left
        invariant faults == Skip(script, done)
        invariant UndidSoFar(script, done, failed)
        invariant HeldDisk(start, ordered, f, fault, script, recordFirst, left, files)
      {
        left := left - 1;
        var outcome := UndoOne(start, ordered, before, f, recordFirst, fault, script, left);
        if outcome == Dies {
          return Died;
        }
        UndidOneMore(script, done, failed);
        failed := failed || outcome != Works;
        done := done + 1;
      }
      o := if failed then RollbackFailed else RolledBack;
      UndidAll(script, undo, failed);
    }
  }

  /** The order of publication shows neither in the whole batch nor in what may be left of it. */
  lemma BatchInAnyOrder<P(!new), B>(leq: (P, P) -> bool, start: map<P, B>, writes: seq<Replacement<P, B>>, now: map<P, B>)
    requires DistinctPaths(InPathOrder(leq, writes)) && Between(start, InPathOrder(leq, writes), now)
    ensures Apply(start, InPathOrder(leq, writes)) == Apply(start, writes)
    ensures Between(start, writes, now)
  {
    ApplyPermuted(start, InPathOrder(leq, writes), writes);
    BetweenPermuted(start, InPathOrder(leq, writes), writes, now);
  }

  /**
   When replacements are recorded after they are published, a completed rollback
   is exact if and only if the publish that threw had no effect or wrote what was
   already there.
   */
  lemma RollbackExactness<P(!new), B>(files: map<P, B>, ordered: seq<Replacement<P, B>>, f: nat, fault: Fault)
    requires f < |ordered|
    ensures WithStray(files, Stray(ordered, f, fault)) == files
            <==> fault != Throws(true) || Get(files, ordered[f].path) == ordered[f].bytes
  {
    var w := ordered[f];
    if fault == Throws(true) {
      assert Get(Put(files, w.path, w.bytes), w.path) == w.bytes;
      if Get(files, w.path) == w.bytes {
        SameGetSameFiles(Put(files, w.path, w.bytes), files);
      }
    }
  }

  /** A one-file create whose directory sync fails is reported as failed and stays on the disk. */
  method FailedCreateStays() returns (d: Disk<nat, nat>, o: Outcome)
    ensures o == RolledBack && d.files == map[1 := 7]
  {
    d := new Disk(map[], [Throws(true)]);
    var write := Replacement(1, Some(7), MustBeAbsent);
    assert InPathOrder((a: nat, b: nat) => a <= b, [write]) == [write];
    assert FirstFault([Throws(true)], 1) == 0;
    o := d.ApplyBatch((a: nat, b: nat) => a <= b, [write], 10, false);
  }

  lemma OrderKeepsAdmissible<P, B>(leq: (P, P) -> bool, files: map<P, B>, writes: seq<Replacement<P, B>>, limit: nat)
    ensures Admissible(files, InPathOrder(leq, writes), limit) <==> Admissible(files, writes, limit)
  {
    SameElements(leq, writes);
    OrderKeepsRefusal(leq, files, writes);
  }

  lemma OrderKeepsRefusal<P, B>(leq: (P, P) -> bool, files: map<P, B>, writes: seq<Replacement<P, B>>)
    ensures DistinctPaths(InPathOrder(leq, writes)) <==> DistinctPaths(writes)
    ensures (exists r :: r in InPathOrder(leq, writes) && !Expects(files, r)) <==> exists r :: r in writes && !Expects(files, r)
  {
    var ordered := InPathOrder(leq, writes);
    SameElements(leq, writes);
    if DistinctPaths(writes) {
      PermutationKeepsDistinct(writes, ordered);
    }
    if DistinctPaths(ordered) {
      PermutationKeepsDistinct(ordered, writes);
    }
  }

  lemma BetweenPermuted<P(!new), B>(files: map<P, B>, a: seq<Replacement<P, B>>, b: seq<Replacement<P, B>>, now: map<P, B>)
    requires multiset(a) == multiset(b) && Between(files, a, now)
    ensures Between(files, b, now)
  {
    forall j | 0 <= j < |b|
      ensures Get(now, b[j].path) == Get(files, b[j].path) || Get(now, b[j].path) == b[j].bytes
    {
      assert b[j] in multiset(a);
    }
    forall p | forall j :: 0 <= j < |b| ==> b[j].path != p
      ensures Get(now, p) == Get(files, p)
    {
      forall i | 0 <= i < |a| ensures a[i].path != p {
        assert a[i] in multiset(b);
      }
    }
  }
}
