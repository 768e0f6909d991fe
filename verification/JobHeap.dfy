/**
 The priority queue under the job queue: jobQueueImpl of jobberrunner/queue.go with the sifting of container/heap.

 The slice is a sequence that each operation takes and returns; the jobs in it are not touched.
 */
module JobHeaps {
  import opened Wrappers
  import opened Jobs

  function KeyOf(job: Job): int
    reads job`nextRunTime
  {
    if job.nextRunTime.Some? then job.nextRunTime.value else -1
  }

  predicate Less(a: Job, b: Job)
    reads a`nextRunTime, b`nextRunTime
  {
    KeyOf(a) < KeyOf(b)
  }

  function Parent(i: nat): nat
    requires i > 0
  {
    (i - 1) / 2
  }

  // ---------- Heaps of keys ----------

  ghost predicate IsHeap(keys: seq<int>, n: nat)
    requires n <= |keys|
  {
    forall i | 0 < i < n :: keys[Parent(i)] <= keys[i]
  }

  /** A heap but for key j, which may come before its parent; j's children are in order with j's parent. */
  ghost predicate HeapButUp(keys: seq<int>, j: nat)
    requires j < |keys|
  {
    && (forall i | 0 < i < |keys| && i != j :: keys[Parent(i)] <= keys[i])
    && (j > 0 ==> forall i | 0 < i < |keys| && Parent(i) == j :: keys[Parent(j)] <= keys[i])
  }

  /** A heap of n keys but for key i, which may come after its children; these are in order with i's parent. */
  ghost predicate HeapButDown(keys: seq<int>, n: nat, i: nat)
    requires n <= |keys| && (n > 0 ==> i < n)
  {
    && (forall k | 0 < k < n && Parent(k) != i :: keys[Parent(k)] <= keys[k])
    && (n > 0 && i > 0 ==> forall k | 0 < k < n && Parent(k) == i :: keys[Parent(i)] <= keys[k])
  }

  function Swapped<T>(q: seq<T>, i: nat, j: nat): seq<T>
    requires i < |q| && j < |q|
  {
    q[i := q[j]][j := q[i]]
  }

  lemma {:induction false} RootIsLeast(keys: seq<int>, n: nat, i: nat)
    requires n <= |keys| && IsHeap(keys, n) && i < n
    ensures keys[0] <= keys[i]
  {
    if i > 0 {
      RootIsLeast(keys, n, Parent(i));
    }
  }

  lemma ParentBelow(i: nat)
    requires i > 0
    ensures Parent(i) < i
  {
  }

  lemma UpDone(keys: seq<int>, j: nat)
    requires j < |keys| && HeapButUp(keys, j) && (j > 0 ==> keys[Parent(j)] <= keys[j])
    ensures IsHeap(keys, |keys|)
  {
  }

  lemma UpStep(keys: seq<int>, j: nat)
    requires 0 < j < |keys| && HeapButUp(keys, j) && keys[j] < keys[Parent(j)]
    ensures Parent(j) < |keys| && HeapButUp(Swapped(keys, Parent(j), j), Parent(j))
  {
    ParentBelow(j);
    var p := Parent(j);
    var after := Swapped(keys, p, j);
    forall i | 0 < i < |after| && i != p
      ensures after[Parent(i)] <= after[i]
    {
      ParentBelow(i);
      if i != j {
        assert keys[Parent(i)] <= keys[i];
      }
    }
    if p > 0 {
      ParentBelow(p);
      assert keys[Parent(p)] <= keys[p];
      forall i | 0 < i < |after| && Parent(i) == p
        ensures after[Parent(p)] <= after[i]
      {
        if i != j {
          assert keys[Parent(i)] <= keys[i];
        }
      }
    }
  }

  lemma DownDone(keys: seq<int>, n: nat, i: nat)
    requires n <= |keys| && (n > 0 ==> i < n) && HeapButDown(keys, n, i)
    requires forall k | 0 < k < n && Parent(k) == i :: keys[i] <= keys[k]
    ensures IsHeap(keys, n)
  {
  }

  lemma DownStep(keys: seq<int>, n: nat, i: nat, j: nat)
    requires i < j < n <= |keys| && Parent(j) == i && HeapButDown(keys, n, i) && keys[j] < keys[i]
    requires forall k | 0 < k < n && Parent(k) == i :: keys[j] <= keys[k]
    ensures HeapButDown(Swapped(keys, i, j), n, j)
  {
  }

  lemma Children(i: nat, k: nat)
    requires k > 0
    ensures Parent(k) == i <==> k == 2 * i + 1 || k == 2 * i + 2
  {
  }

  // ---------- Heaps of jobs ----------

  function Keys(q: seq<Job>): (keys: seq<int>)
    reads q`nextRunTime
    ensures |keys| == |q| && forall i | 0 <= i < |q| :: keys[i] == KeyOf(q[i])
  {
    if q == [] then [] else Keys(q[..|q| - 1]) + [KeyOf(q[|q| - 1])]
  }

  lemma SwapMultiset<T>(q: seq<T>, i: nat, j: nat)
    requires i < |q| && j < |q|
    ensures multiset(Swapped(q, i, j)) == multiset(q)
  {
  }

  lemma SwapKeys(q: seq<Job>, i: nat, j: nat)
    requires i < |q| && j < |q|
    ensures |Swapped(q, i, j)| == |q| && Keys(Swapped(q, i, j)) == Swapped(Keys(q), i, j)
  {
  }

  lemma SwapKeepsJobs(q: seq<Job>, i: nat, j: nat)
    requires i < |q| && j < |q|
    ensures multiset(Swapped(q, i, j)) == multiset(q)
    ensures Keys(Swapped(q, i, j)) == Swapped(Keys(q), i, j)
  {
    hide *;
    SwapMultiset(q, i, j);
    SwapKeys(q, i, j);
  }

  method Up(q0: seq<Job>, j0: nat) returns (q: seq<Job>)
    requires j0 < |q0| && HeapButUp(Keys(q0), j0)
    ensures |q| == |q0| && IsHeap(Keys(q), |q|) && multiset(q) == multiset(q0)
  {
    hide IsHeap, HeapButUp, Keys, Swapped;
    q := q0;
    var j: nat := j0;
    while true
      invariant j < |q| == |q0| && multiset(q) == multiset(q0)
      invariant HeapButUp(Keys(q), j)
      decreases j
    {
      if j == 0 {
        UpDone(Keys(q), j);
        break;
      }
      ParentBelow(j);
      var i: nat := Parent(j);
      if !Less(q[j], q[i]) {
        UpDone(Keys(q), j);
        break;
      }
      SwapKeepsJobs(q, i, j);
      UpStep(Keys(q), j);
      SwapLength(q, i, j);
      q := Swapped(q, i, j);
      j := i;
    }
  }

  lemma SwapLength<T>(q: seq<T>, i: nat, j: nat)
    requires i < |q| && j < |q|
    ensures |Swapped(q, i, j)| == |q|
    ensures forall k | 0 <= k < |q| && k != i && k != j :: Swapped(q, i, j)[k] == q[k]
    ensures Swapped(q, i, j)[j] == q[i]
  {
  }

  method Down(q0: seq<Job>, i0: nat, n: nat) returns (q: seq<Job>)
    requires n <= |q0| && (n > 0 ==> i0 < n) && HeapButDown(Keys(q0), n, i0)
    ensures |q| == |q0| && IsHeap(Keys(q), n) && multiset(q) == multiset(q0)
    ensures forall i | n <= i < |q| :: q[i] == q0[i]
  {
    hide IsHeap, HeapButDown, Keys, Swapped, Parent;
    q := q0;
    var i := i0;
    while true
      invariant |q| == |q0| && multiset(q) == multiset(q0) && (n > 0 ==> i < n)
      invariant HeapButDown(Keys(q), n, i)
      invariant forall k | n <= k < |q| :: q[k] == q0[k]
      decreases n - i
    {
      var j1 := 2 * i + 1;
      forall k | k > 0 ensures Parent(k) == i <==> k == 2 * i + 1 || k == 2 * i + 2 { Children(i, k); }
      if j1 >= n {
        DownDone(Keys(q), n, i);
        break;
      }
      var j := j1;
      var j2 := j1 + 1;
      if j2 < n && Less(q[j2], q[j1]) {
        j := j2;
      }
      if !Less(q[j], q[i]) {
        DownDone(Keys(q), n, i);
        break;
      }
      SwapKeepsJobs(q, i, j);
      DownStep(Keys(q), n, i, j);
      SwapLength(q, i, j);
      q := Swapped(q, i, j);
      i := j;
    }
  }

  /** heap.Push */
  method Push(q0: seq<Job>, job: Job) returns (q: seq<Job>)
    requires IsHeap(Keys(q0), |q0|)
    ensures IsHeap(Keys(q), |q|) && multiset(q) == multiset(q0) + multiset{job}
  {
    q := q0 + [job];
    AppendAlmostHeap(Keys(q0), KeyOf(job));
    assert Keys(q) == Keys(q0) + [KeyOf(job)];
    q := Up(q, |q| - 1);
  }

  lemma AppendAlmostHeap(keys: seq<int>, key: int)
    requires IsHeap(keys, |keys|)
    ensures HeapButUp(keys + [key], |keys|)
  {
  }

  /** Moving the last key to the root leaves the first n a heap but for the root. */
  lemma SwapRootAlmostHeap(keys: seq<int>, n: nat)
    requires |keys| == n + 1 && IsHeap(keys, n + 1)
    ensures HeapButDown(Swapped(keys, 0, n), n, 0)
  {
  }

  /** heap.Pop */
  method Pop(q0: seq<Job>) returns (q: seq<Job>, job: Job)
    requires q0 != [] && IsHeap(Keys(q0), |q0|)
    ensures IsHeap(Keys(q), |q|) && multiset(q0) == multiset(q) + multiset{job}
    ensures forall i | 0 <= i < |q0| :: KeyOf(job) <= KeyOf(q0[i])
  {
    forall i | 0 <= i < |q0| ensures KeyOf(q0[0]) <= KeyOf(q0[i]) { RootIsLeast(Keys(q0), |q0|, i); }
    hide *;
    var n := |q0| - 1;
    SwapKeepsJobs(q0, 0, n);
    SwapRootAlmostHeap(Keys(q0), n);
    SwapLength(q0, 0, n);
    var r := Swapped(q0, 0, n);
    r := Down(r, 0, n);
    job := r[n];
    q := r[..n];
    WithoutLast(r, n);
  }

  lemma WithoutLast(r: seq<Job>, n: nat)
    requires |r| == n + 1 && IsHeap(Keys(r), n)
    ensures IsHeap(Keys(r[..n]), n) && multiset(r) == multiset(r[..n]) + multiset{r[n]}
  {
    hide *;
    KeysWithoutLast(r, n);
    HeapPrefix(Keys(r[..n]), KeyOf(r[n]));
    LastApart(r, n);
  }

  lemma KeysWithoutLast(r: seq<Job>, n: nat)
    requires |r| == n + 1
    ensures Keys(r) == Keys(r[..n]) + [KeyOf(r[n])]
  {
  }

  lemma LastApart<T>(r: seq<T>, n: nat)
    requires |r| == n + 1
    ensures multiset(r) == multiset(r[..n]) + multiset{r[n]}
  {
    assert r == r[..n] + [r[n]];
  }

  lemma HeapPrefix(keys: seq<int>, key: int)
    requires IsHeap(keys + [key], |keys|)
    ensures IsHeap(keys, |keys|)
  {
  }
}
