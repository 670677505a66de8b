/** The dependency ordering that the CI front ends share: repeatedly take every job whose needs are
    done, and when a whole pass takes none, append what is left. The front ends differ in whether a need
    that names no job blocks, and in whether the rest is sorted by name. */
module Ordering {

  type Name = string

  datatype Job = Job(name: Name, needs: seq<Name>)

  /** `lenient`: a need that names no job counts as satisfied. `sortRest`: the fallback sorts. */
  datatype Config = Config(jobs: seq<Job>, lenient: bool, sortRest: bool)

  function Names(js: seq<Job>): set<Name> { set j <- js :: j.name }

  ghost predicate Distinct(js: seq<Job>) {
    forall i, k :: 0 <= i < k < |js| ==> js[i].name != js[k].name
  }

  /** `need` still holds a job back once the jobs in `done` have been taken. */
  predicate Blocks(c: Config, need: Name, done: set<Name>) {
    need !in done && (c.lenient ==> need in Names(c.jobs))
  }

  predicate Ready(c: Config, j: Job, done: set<Name>) {
    forall need <- j.needs :: !Blocks(c, need, done)
  }

  // ----- the graph: which jobs can ever be taken, and what stands in the way

  /** All of `x`'s needs, and theirs in turn, bottom out within `n` levels. */
  ghost predicate GroundedIn(c: Config, x: Name, n: nat)
    decreases n, 0
  {
    n > 0 && exists j :: j in c.jobs && j.name == x && NeedsGroundedIn(c, j, n - 1)
  }

  ghost predicate NeedsGroundedIn(c: Config, j: Job, n: nat)
    decreases n, 1
  {
    forall need <- j.needs :: (c.lenient && need !in Names(c.jobs)) || GroundedIn(c, need, n)
  }

  ghost predicate Grounded(c: Config, x: Name) { exists n: nat :: GroundedIn(c, x, n) }

  /** `y` is a need of the job `x` that names a job. */
  ghost predicate Edge(c: Config, x: Name, y: Name) {
    y in Names(c.jobs) && exists j :: j in c.jobs && j.name == x && y in j.needs
  }

  ghost predicate Path(c: Config, p: seq<Name>) {
    p != [] && forall i :: 0 <= i < |p| - 1 ==> Edge(c, p[i], p[i + 1])
  }

  ghost predicate Cycle(c: Config, p: seq<Name>) { Path(c, p) && |p| >= 2 && p[0] == p[|p| - 1] }

  ghost predicate Closed(c: Config) {
    forall j <- c.jobs, need <- j.needs :: need in Names(c.jobs)
  }

  /** Nothing stands in the way of taking every job. */
  ghost predicate Orderable(c: Config) {
    (c.lenient || Closed(c)) && forall p :: !Cycle(c, p)
  }

  lemma {:induction false} GroundedInMonotone(c: Config, x: Name, n: nat, m: nat)
    requires GroundedIn(c, x, n) && n <= m
    ensures GroundedIn(c, x, m)
    decreases n
  {
    var j :| j in c.jobs && j.name == x && NeedsGroundedIn(c, j, n - 1);
    forall need <- j.needs ensures (c.lenient && need !in Names(c.jobs)) || GroundedIn(c, need, m - 1) {
      if !(c.lenient && need !in Names(c.jobs)) { GroundedInMonotone(c, need, n - 1, m - 1); }
    }
    assert NeedsGroundedIn(c, j, m - 1);
  }

  lemma JobNamed(js: seq<Job>, x: Name) returns (j: Job)
    requires x in Names(js)
    ensures j in js && j.name == x
  {
    j :| j in js && j.name == x;
  }

  lemma {:induction false} SameJob(js: seq<Job>, j: Job, k: Job)
    requires Distinct(js) && j in js && k in js && j.name == k.name
    ensures j == k
  {
    var a :| 0 <= a < |js| && js[a] == j;
    var b :| 0 <= b < |js| && js[b] == k;
  }

  /** A common level for finitely many grounded needs. */
  lemma {:induction false} CommonLevel(c: Config, needs: seq<Name>) returns (n: nat)
    requires forall need <- needs :: (c.lenient && need !in Names(c.jobs)) || Grounded(c, need)
    ensures forall need <- needs :: (c.lenient && need !in Names(c.jobs)) || GroundedIn(c, need, n)
    decreases |needs|
  {
    if needs == [] {
      n := 0;
    } else {
      var rest := CommonLevel(c, needs[1..]);
      var first: nat := 0;
      var skip := c.lenient && needs[0] !in Names(c.jobs);
      assert needs[0] in needs;
      if !skip { first :| GroundedIn(c, needs[0], first); }
      n := if first < rest then rest else first;
      forall need <- needs ensures (c.lenient && need !in Names(c.jobs)) || GroundedIn(c, need, n) {
        if !(c.lenient && need !in Names(c.jobs)) {
          if need in needs[1..] { GroundedInMonotone(c, need, rest, n); }
          else { assert need == needs[0]; GroundedInMonotone(c, need, first, n); }
        }
      }
    }
  }

  lemma GroundedByNeeds(c: Config, j: Job)
    requires j in c.jobs
    requires forall need <- j.needs :: (c.lenient && need !in Names(c.jobs)) || Grounded(c, need)
    ensures Grounded(c, j.name)
  {
    var n := CommonLevel(c, j.needs);
    assert NeedsGroundedIn(c, j, n);
    assert GroundedIn(c, j.name, n + 1);
  }

  lemma {:induction false} LevelsFall(c: Config, p: seq<Name>, n: nat)
    requires Distinct(c.jobs) && Path(c, p) && GroundedIn(c, p[0], n)
    ensures |p| <= n && GroundedIn(c, p[|p| - 1], n - |p| + 1)
    decreases |p|
  {
    if |p| > 1 {
      assert Edge(c, p[0], p[0 + 1]);
      var j :| j in c.jobs && j.name == p[0] && NeedsGroundedIn(c, j, n - 1);
      var k :| k in c.jobs && k.name == p[0] && p[1] in k.needs;
      SameJob(c.jobs, j, k);
      assert GroundedIn(c, p[1], n - 1);
      var q := p[1..];
      forall i | 0 <= i < |q| - 1 ensures Edge(c, q[i], q[i + 1]) { assert Edge(c, p[i + 1], p[i + 1 + 1]); }
      LevelsFall(c, q, n - 1);
    }
  }

  lemma {:induction false} NoGroundedCycle(c: Config, p: seq<Name>, n: nat)
    requires Distinct(c.jobs) && Cycle(c, p)
    ensures !GroundedIn(c, p[0], n)
    decreases n
  {
    if GroundedIn(c, p[0], n) {
      LevelsFall(c, p, n);
      NoGroundedCycle(c, p, n - |p| + 1);
    }
  }

  // ----- a job that is not grounded leads to an undeclared need or into a cycle

  lemma StuckNeed(c: Config, x: Name) returns (y: Name)
    requires x in Names(c.jobs) && !Grounded(c, x) && (c.lenient || Closed(c))
    ensures y in Names(c.jobs) && !Grounded(c, y) && Edge(c, x, y)
  {
    var j := JobNamed(c.jobs, x);
    if forall need <- j.needs :: (c.lenient && need !in Names(c.jobs)) || Grounded(c, need) {
      GroundedByNeeds(c, j);
    }
    y :| y in j.needs && !(c.lenient && y !in Names(c.jobs)) && !Grounded(c, y);
  }

  lemma {:induction false} StuckPath(c: Config, x: Name, len: nat) returns (p: seq<Name>)
    requires x in Names(c.jobs) && !Grounded(c, x) && (c.lenient || Closed(c))
    ensures |p| == len + 1 && p[0] == x && Path(c, p)
    ensures forall i :: 0 <= i < |p| ==> p[i] in Names(c.jobs)
    decreases len
  {
    if len == 0 {
      p := [x];
    } else {
      var y := StuckNeed(c, x);
      var q := StuckPath(c, y, len - 1);
      p := [x] + q;
      forall i | 0 <= i < |p| - 1 ensures Edge(c, p[i], p[i + 1]) {
        if i > 0 { assert Edge(c, q[i - 1], q[i - 1 + 1]); }
      }
    }
  }

  lemma {:induction false} Pigeonhole(p: seq<Name>, s: set<Name>) returns (i: nat, k: nat)
    requires |p| > |s| && forall i :: 0 <= i < |p| ==> p[i] in s
    ensures i < k < |p| && p[i] == p[k]
    decreases |s|
  {
    var x := p[0];
    if k' :| 1 <= k' < |p| && p[k'] == x {
      i, k := 0, k';
    } else {
      forall m | 0 <= m < |p[1..]| ensures p[1..][m] in s - {x} { assert p[m + 1] in s; }
      i, k := Pigeonhole(p[1..], s - {x});
      i, k := i + 1, k + 1;
    }
  }

  lemma StuckMeansCycle(c: Config, x: Name) returns (p: seq<Name>)
    requires x in Names(c.jobs) && !Grounded(c, x) && (c.lenient || Closed(c))
    ensures Cycle(c, p)
  {
    var q := StuckPath(c, x, |Names(c.jobs)|);
    var i, k := Pigeonhole(q, Names(c.jobs));
    p := q[i..k + 1];
    forall m | 0 <= m < |p| - 1 ensures Edge(c, p[m], p[m + 1]) { assert Edge(c, q[i + m], q[i + m + 1]); }
  }

  /** Every job can be taken exactly if every need that counts is declared and there is no cycle. */
  lemma OrderableMeansGrounded(c: Config)
    requires Distinct(c.jobs)
    ensures Orderable(c) <==> forall j <- c.jobs :: Grounded(c, j.name)
  {
    if forall j <- c.jobs :: Grounded(c, j.name) {
      forall p ensures !Cycle(c, p) {
        if Cycle(c, p) {
          assert Edge(c, p[0], p[0 + 1]);
          var n: nat :| GroundedIn(c, p[0], n);
          NoGroundedCycle(c, p, n);
        }
      }
      if !c.lenient {
        forall j <- c.jobs, need <- j.needs ensures need in Names(c.jobs) { NeedIsDeclared(c, j, need); }
      }
    }
    if Orderable(c) {
      forall j <- c.jobs ensures Grounded(c, j.name) {
        if !Grounded(c, j.name) { var p := StuckMeansCycle(c, j.name); }
      }
    }
  }

  lemma NeedIsDeclared(c: Config, j: Job, need: Name)
    requires Distinct(c.jobs) && !c.lenient && j in c.jobs && need in j.needs && Grounded(c, j.name)
    ensures need in Names(c.jobs)
  {
    var n: nat :| GroundedIn(c, j.name, n);
    var k :| k in c.jobs && k.name == j.name && NeedsGroundedIn(c, k, n - 1);
    SameJob(c.jobs, j, k);
    assert GroundedIn(c, need, n - 1);
  }

  // ----- the algorithm as a function of the state

  datatype State = State(order: seq<Job>, done: set<Name>)

  const START := State([], {})

  /** One step of a pass: take the job if it is not done and nothing holds it back. */
  function Visit(c: Config, st: State, j: Job): State {
    if j.name in st.done || !Ready(c, j, st.done) then st
    else State(st.order + [j], st.done + {j.name})
  }

  /** A pass over the first `n` jobs. */
  function Pass(c: Config, st: State, n: nat): State
    requires n <= |c.jobs|
  {
    if n == 0 then st else Visit(c, Pass(c, st, n - 1), c.jobs[n - 1])
  }

  /** The jobs among the first `n` that are left when `done` is done, first copies only. */
  function Rest(js: seq<Job>, done: set<Name>, n: nat): seq<Job>
    requires n <= |js|
  {
    if n == 0 then []
    else
      var front := Rest(js, done, n - 1);
      if js[n - 1].name in done || js[n - 1].name in Names(front) then front else front + [js[n - 1]]
  }

  function Fallback(c: Config, st: State): State {
    var rest := Rest(c.jobs, st.done, |c.jobs|);
    State(st.order + (if c.sortRest then SortByName(rest) else rest), st.done + Names(rest))
  }

  /** A pass, and the fallback if it took nothing. */
  function Round(c: Config, st: State): State {
    var after := Pass(c, st, |c.jobs|);
    if |after.order| > |st.order| then after else Fallback(c, after)
  }

  function Rounds(c: Config, n: nat): State {
    if n == 0 then START else Round(c, Rounds(c, n - 1))
  }

  // ----- names in order

  predicate NameLe(a: Name, b: Name) {
    a == "" || (b != "" && (a[0] < b[0] || (a[0] == b[0] && NameLe(a[1..], b[1..]))))
  }

  lemma {:induction false} NameLeTotal(a: Name, b: Name)
    ensures NameLe(a, b) || NameLe(b, a)
  {
    if a != "" && b != "" && a[0] == b[0] { NameLeTotal(a[1..], b[1..]); }
  }

  lemma {:induction false} NameLeTransitive(a: Name, b: Name, d: Name)
    requires NameLe(a, b) && NameLe(b, d)
    ensures NameLe(a, d)
  {
    if a != "" && a[0] == b[0] == d[0] { NameLeTransitive(a[1..], b[1..], d[1..]); }
  }

  /** `a` comes first in the dictionary: it begins `b`, or is less at the first difference. */
  ghost predicate InDictionary(a: Name, b: Name) {
    a <= b || exists k :: 0 <= k < |a| && k < |b| && a[..k] == b[..k] && a[k] < b[k]
  }

  lemma DifferenceLater(a: Name, b: Name, k: nat)
    requires a != "" && b != "" && a[0] == b[0] && k + 1 < |a| && k + 1 < |b|
    ensures a[..k + 1] == b[..k + 1] <==> a[1..][..k] == b[1..][..k]
  {
    assert a[..k + 1] == [a[0]] + a[1..][..k] && b[..k + 1] == [b[0]] + b[1..][..k];
    assert a[1..][..k] == a[..k + 1][1..] && b[1..][..k] == b[..k + 1][1..];
  }

  lemma SameFirst(a: Name, b: Name)
    requires a != "" && b != "" && a[0] == b[0]
    ensures InDictionary(a, b) <==> InDictionary(a[1..], b[1..])
  {
    assert a == [a[0]] + a[1..] && b == [b[0]] + b[1..];
    if k: int :| 0 <= k < |a[1..]| && k < |b[1..]| && a[1..][..k] == b[1..][..k] && a[1..][k] < b[1..][k] {
      DifferenceLater(a, b, k);
      assert a[k + 1] < b[k + 1];
    }
    if k: int :| 0 <= k < |a| && k < |b| && a[..k] == b[..k] && a[k] < b[k] {
      DifferenceLater(a, b, k - 1);
      assert a[1..][k - 1] < b[1..][k - 1];
    }
  }

  lemma OtherFirst(a: Name, b: Name)
    requires a != "" && b != "" && a[0] != b[0]
    ensures InDictionary(a, b) <==> a[0] < b[0]
  {
    assert a[..0] == b[..0];
    if k: int :| 0 < k < |a| && k < |b| && a[..k] == b[..k] { SameFront(a, b, k); }
  }

  lemma SameFront(a: Name, b: Name, k: nat)
    requires 0 < k < |a| && k < |b| && a[..k] == b[..k]
    ensures a[0] == b[0]
  {
    assert a[..k][0] == b[..k][0];
  }

  lemma {:induction false} NameLeMeans(a: Name, b: Name)
    ensures NameLe(a, b) <==> InDictionary(a, b)
  {
    hide InDictionary;
    if a == "" || b == "" {
      assert InDictionary(a, b) <==> a == "" by { hide *; EmptyFirst(a, b); }
    } else if a[0] == b[0] {
      NameLeMeans(a[1..], b[1..]);
      SameFirst(a, b);
    } else {
      OtherFirst(a, b);
    }
  }

  lemma EmptyFirst(a: Name, b: Name)
    requires a == "" || b == ""
    ensures InDictionary(a, b) <==> a == ""
  {
  }

  ghost predicate Sorted(js: seq<Job>) {
    forall i, k :: 0 <= i < k < |js| ==> NameLe(js[i].name, js[k].name)
  }

  /** Puts `j` behind every job whose name is not greater, as a stable sort does with the last job. */
  function Insert(js: seq<Job>, j: Job): seq<Job> {
    if js == [] || NameLe(js[|js| - 1].name, j.name) then js + [j]
    else Insert(js[..|js| - 1], j) + [js[|js| - 1]]
  }

  function SortByName(js: seq<Job>): seq<Job> {
    if js == [] then [] else Insert(SortByName(js[..|js| - 1]), js[|js| - 1])
  }

  lemma OnlyInserted(front: seq<Job>, j: Job, k: Job, last: Job)
    requires multiset(Insert(front, j)) == multiset(front) + multiset{j} && k in Insert(front, j)
    requires NameLe(j.name, last.name) && forall i :: 0 <= i < |front| ==> NameLe(front[i].name, last.name)
    ensures NameLe(k.name, last.name)
  {
    hide NameLe, Insert;
    assert k in multiset(Insert(front, j));
    if k != j { assert k in multiset(front); }
  }

  lemma {:induction false} InsertSorts(js: seq<Job>, j: Job)
    requires Sorted(js)
    ensures Sorted(Insert(js, j)) && multiset(Insert(js, j)) == multiset(js) + multiset{j}
    decreases |js|
  {
    if js == [] {
    } else {
      var front, last := js[..|js| - 1], js[|js| - 1];
      assert js == front + [last];
      if NameLe(last.name, j.name) {
        forall i | 0 <= i < |js| ensures NameLe(js[i].name, j.name) {
          if i < |js| - 1 { NameLeTransitive(js[i].name, last.name, j.name); }
        }
      } else {
        NameLeTotal(last.name, j.name);
        InsertSorts(front, j);
        forall k | k in Insert(front, j) ensures NameLe(k.name, last.name) { OnlyInserted(front, j, k, last); }
      }
    }
  }

  lemma {:induction false} SortByNameSorts(js: seq<Job>)
    ensures Sorted(SortByName(js)) && multiset(SortByName(js)) == multiset(js)
    decreases |js|
  {
    if js != [] {
      SortByNameSorts(js[..|js| - 1]);
      InsertSorts(SortByName(js[..|js| - 1]), js[|js| - 1]);
      assert js == js[..|js| - 1] + [js[|js| - 1]];
    }
  }

  // ----- what every state keeps

  /** The jobs taken so far, each after everything that could hold it back; `done` is their names. */
  ghost predicate Sound(c: Config, st: State) {
    && st.done == Names(st.order) && Distinct(st.order)
    && (forall j <- st.order :: j in c.jobs)
    && forall i :: 0 <= i < |st.order| ==> Ready(c, st.order[i], Names(st.order[..i]))
  }

  ghost predicate AllGrounded(c: Config, st: State) { forall x <- st.done :: Grounded(c, x) }

  /** A job that is ready and has a new name may be taken. */
  lemma TakingIsSound(c: Config, st: State, j: Job)
    requires Sound(c, st) && j in c.jobs && j.name !in st.done && Ready(c, j, st.done)
    ensures Sound(c, State(st.order + [j], st.done + {j.name}))
  {
    hide Ready, Distinct, Names;
    var order := st.order + [j];
    DistinctSnoc(st.order, j);
    assert order[..|st.order|] == st.order;
    forall i | 0 <= i < |order| ensures Ready(c, order[i], Names(order[..i])) {
      if i < |st.order| { assert order[..i] == st.order[..i]; }
    }
  }

  lemma ReadyIsGrounded(c: Config, st: State, j: Job)
    requires AllGrounded(c, st) && j in c.jobs && Ready(c, j, st.done)
    ensures Grounded(c, j.name)
  {
    hide Grounded;
    forall need <- j.needs ensures (c.lenient && need !in Names(c.jobs)) || Grounded(c, need) {
      assert !Blocks(c, need, st.done);
    }
    GroundedByNeeds(c, j);
  }

  lemma VisitKeeps(c: Config, st: State, j: Job)
    requires Sound(c, st) && AllGrounded(c, st) && j in c.jobs
    ensures Sound(c, Visit(c, st, j)) && AllGrounded(c, Visit(c, st, j))
    ensures st.order <= Visit(c, st, j).order
  {
    hide Sound, Ready, Grounded;
    if Visit(c, st, j) != st {
      TakingIsSound(c, st, j);
      ReadyIsGrounded(c, st, j);
    }
  }

  lemma {:induction false} PassKeeps(c: Config, st: State, n: nat)
    requires n <= |c.jobs| && Sound(c, st) && AllGrounded(c, st)
    ensures Sound(c, Pass(c, st, n)) && AllGrounded(c, Pass(c, st, n))
    ensures st.order <= Pass(c, st, n).order
    ensures |Pass(c, st, n).order| == |st.order| ==> Pass(c, st, n) == st
    decreases n
  {
    if n > 0 {
      PassKeeps(c, st, n - 1);
      VisitKeeps(c, Pass(c, st, n - 1), c.jobs[n - 1]);
    }
  }

  /** After a pass without progress every remaining job is held back. */
  lemma {:induction false} IdlePass(c: Config, st: State, n: nat)
    requires n <= |c.jobs| && Sound(c, st) && AllGrounded(c, st) && |Pass(c, st, n).order| == |st.order|
    ensures forall i :: 0 <= i < n ==> c.jobs[i].name in st.done || !Ready(c, c.jobs[i], st.done)
    decreases n
  {
    hide Sound, AllGrounded, Ready;
    if n > 0 {
      PassKeeps(c, st, n - 1);
      PassKeeps(c, st, n);
      VisitKeeps(c, Pass(c, st, n - 1), c.jobs[n - 1]);
      IdlePass(c, st, n - 1);
    }
  }

  /** So nothing outside `done` is grounded. */
  lemma {:induction false} IdleMeansDone(c: Config, st: State, x: Name, n: nat)
    requires forall j <- c.jobs :: j.name in st.done || !Ready(c, j, st.done)
    requires GroundedIn(c, x, n)
    ensures x in st.done
    decreases n
  {
    var j :| j in c.jobs && j.name == x && NeedsGroundedIn(c, j, n - 1);
    forall need <- j.needs ensures !Blocks(c, need, st.done) {
      if !(c.lenient && need !in Names(c.jobs)) { IdleMeansDone(c, st, need, n - 1); }
    }
  }

  lemma IdleStateIsGroundedPart(c: Config, st: State)
    requires Sound(c, st) && AllGrounded(c, st) && |Pass(c, st, |c.jobs|).order| == |st.order|
    ensures forall x :: x in st.done <==> Grounded(c, x)
  {
    IdlePass(c, st, |c.jobs|);
    forall j <- c.jobs ensures j.name in st.done || !Ready(c, j, st.done) {
      var i :| 0 <= i < |c.jobs| && c.jobs[i] == j;
    }
    forall x | Grounded(c, x) ensures x in st.done {
      var n: nat :| GroundedIn(c, x, n);
      IdleMeansDone(c, st, x, n);
    }
  }

  // ----- the rest

  lemma {:induction false} RestMeans(js: seq<Job>, done: set<Name>, n: nat)
    requires n <= |js|
    ensures Distinct(Rest(js, done, n))
    ensures forall j <- Rest(js, done, n) :: j in js && j.name !in done
    ensures forall i :: 0 <= i < n ==> js[i].name in done || js[i].name in Names(Rest(js, done, n))
  {
    if n > 0 {
      RestMeans(js, done, n - 1);
      var front, rest := Rest(js, done, n - 1), Rest(js, done, n);
      if rest != front {
        forall i | 0 <= i < |front| ensures front[i].name != js[n - 1].name { assert front[i].name in Names(front); }
        assert js[n - 1] in rest && forall x :: x in Names(front) ==> x in Names(rest);
      }
    }
  }

  /** With distinct names the rest is simply the jobs not done, in their order. */
  function NotDone(js: seq<Job>, done: set<Name>): seq<Job> {
    if js == [] then []
    else NotDone(js[..|js| - 1], done) + if js[|js| - 1].name in done then [] else [js[|js| - 1]]
  }

  lemma {:induction false} NotDoneInside(js: seq<Job>, done: set<Name>)
    ensures forall j <- NotDone(js, done) :: j in js
    decreases |js|
  {
    if js != [] { NotDoneInside(js[..|js| - 1], done); }
  }

  lemma {:induction false} RestIsNotDone(js: seq<Job>, done: set<Name>, n: nat)
    requires n <= |js| && Distinct(js)
    ensures Rest(js, done, n) == NotDone(js[..n], done)
  {
    if n > 0 {
      RestIsNotDone(js, done, n - 1);
      assert js[..n][..n - 1] == js[..n - 1];
      NotDoneInside(js[..n - 1], done);
      if js[n - 1].name in Names(Rest(js, done, n - 1)) {
        var j := JobNamed(Rest(js, done, n - 1), js[n - 1].name);
      }
    }
  }

  /** A selection of jobs with distinct names, none missing and none twice, is a permutation. */
  lemma {:induction false} SameNamesSameJobs(js: seq<Job>, ks: seq<Job>)
    requires Distinct(js) && Distinct(ks)
    requires forall j <- ks :: j in js
    requires forall j <- js :: j.name in Names(ks)
    ensures multiset(ks) == multiset(js)
  {
    CountedOnce(js);
    CountedOnce(ks);
    forall j ensures multiset(ks)[j] == multiset(js)[j] {
      if j in js {
        var k := JobNamed(ks, j.name);
        SameJob(js, j, k);
      }
    }
  }

  lemma {:induction false} CountedOnce(js: seq<Job>)
    requires Distinct(js)
    ensures forall j :: multiset(js)[j] == if j in js then 1 else 0
  {
    if js != [] {
      var front, last := js[..|js| - 1], js[|js| - 1];
      CountedOnce(front);
      assert js == front + [last];
      assert multiset(js) == multiset(front) + multiset{last};
    }
  }

  // ----- sizes: when the loop bound can be reached at all

  lemma DistinctSnoc(front: seq<Job>, last: Job)
    ensures Distinct(front + [last]) <==> Distinct(front) && last.name !in Names(front)
    ensures Names(front + [last]) == Names(front) + {last.name}
  {
    var js := front + [last];
    if last.name in Names(front) {
      var j := JobNamed(front, last.name);
      var i :| 0 <= i < |front| && front[i] == j;
      assert js[i].name == js[|front|].name;
    }
    forall i | 0 <= i < |front| ensures js[i] == front[i] && front[i].name in Names(front) {}
    if Distinct(js) {
      forall i, k | 0 <= i < k < |front| ensures front[i].name != front[k].name { assert js[i].name != js[k].name; }
    }
  }

  lemma {:induction false} NamesCount(js: seq<Job>)
    ensures |Names(js)| <= |js|
    ensures |Names(js)| == |js| <==> Distinct(js)
    decreases |js|
  {
    hide Distinct;
    if js == [] {
      assert Distinct(js) by { NoneDistinct(); }
    } else {
      var front, last := js[..|js| - 1], js[|js| - 1];
      assert js == front + [last];
      NamesCount(front);
      DistinctSnoc(front, last);
    }
  }

  lemma NoneDistinct()
    ensures Distinct([])
  {
  }

  lemma SubsetSize(a: set<Name>, b: set<Name>)
    requires a <= b
    ensures |a| <= |b|
  {
    assert b == a + (b - a);
  }

  /** What is true of every state, before and after the fallback. */
  ghost predicate Kept(c: Config, st: State) {
    st.done == Names(st.order) && Distinct(st.order) && forall j <- st.order :: j in c.jobs
  }

  lemma {:induction false} PassKept(c: Config, st: State, n: nat)
    requires n <= |c.jobs| && Kept(c, st)
    ensures Kept(c, Pass(c, st, n)) && st.order <= Pass(c, st, n).order
    decreases n
  {
    if n > 0 {
      PassKept(c, st, n - 1);
      var mid, j := Pass(c, st, n - 1), c.jobs[n - 1];
      if Visit(c, mid, j) != mid {
        assert Names(mid.order + [j]) == mid.done + {j.name};
        forall i | 0 <= i < |mid.order| ensures mid.order[i].name != j.name { assert mid.order[i].name in Names(mid.order); }
      }
    }
  }

  /** Jobs with new names may be put behind the ones taken, in any order. */
  lemma AppendKept(c: Config, st: State, tail: seq<Job>)
    requires Kept(c, st) && Distinct(tail) && forall j <- tail :: j in c.jobs && j.name !in st.done
    ensures Kept(c, State(st.order + tail, st.done + Names(tail)))
  {
    var order := st.order + tail;
    assert Names(order) == st.done + Names(tail);
    forall i, k | 0 <= i < k < |order| ensures order[i].name != order[k].name {
      if i < |st.order| <= k {
        assert order[k] in tail && order[i] in st.order;
        assert order[i].name in Names(st.order);
      }
    }
  }

  lemma FallbackKept(c: Config, st: State)
    requires Kept(c, st)
    ensures Kept(c, Fallback(c, st)) && st.order <= Fallback(c, st).order
    ensures forall j <- c.jobs :: j.name in Fallback(c, st).done
  {
    hide Kept, Names, Distinct, Rest, SortByName;
    var rest := Rest(c.jobs, st.done, |c.jobs|);
    RestMeans(c.jobs, st.done, |c.jobs|);
    var tail := if c.sortRest then SortByName(rest) else rest;
    SortByNameSorts(rest);
    SamePermutation(rest, tail);
    AppendKept(c, st, tail);
    forall j <- c.jobs ensures j.name in st.done + Names(rest) {
      var i :| 0 <= i < |c.jobs| && c.jobs[i] == j;
    }
  }

  lemma SamePermutation(js: seq<Job>, ks: seq<Job>)
    requires multiset(js) == multiset(ks)
    ensures |js| == |ks| && Names(js) == Names(ks) && (Distinct(js) <==> Distinct(ks))
    ensures forall j :: j in js <==> j in ks
  {
    assert |js| == |multiset(js)| == |ks|;
    forall j ensures j in js <==> j in ks { assert j in multiset(js) <==> j in multiset(ks); }
    NamesCount(js);
    NamesCount(ks);
  }

  lemma {:induction false} RoundsKept(c: Config, n: nat)
    ensures Kept(c, Rounds(c, n))
  {
    if n > 0 {
      RoundsKept(c, n - 1);
      PassKept(c, Rounds(c, n - 1), |c.jobs|);
      FallbackKept(c, Pass(c, Rounds(c, n - 1), |c.jobs|));
    }
  }

  lemma KeptIsShort(c: Config, st: State)
    requires Kept(c, st)
    ensures |st.order| <= |Names(c.jobs)| <= |c.jobs|
    ensures (forall j <- c.jobs :: j.name in st.done) ==> |st.order| == |Names(c.jobs)|
  {
    NamesCount(st.order);
    NamesCount(c.jobs);
    SubsetSize(Names(st.order), Names(c.jobs));
    if forall j <- c.jobs :: j.name in st.done { assert Names(st.order) == Names(c.jobs); }
  }

  /** A round that starts short of all names gets further. */
  lemma RoundGrows(c: Config, st: State)
    requires Kept(c, st) && |st.order| < |Names(c.jobs)|
    ensures |Round(c, st).order| > |st.order|
  {
    PassKept(c, st, |c.jobs|);
    var after := Pass(c, st, |c.jobs|);
    if |after.order| == |st.order| {
      FallbackKept(c, after);
      KeptIsShort(c, Fallback(c, after));
    }
  }

  lemma {:induction false} RoundsReach(c: Config, n: nat)
    ensures |Rounds(c, n).order| >= n || |Rounds(c, n).order| >= |Names(c.jobs)|
  {
    hide Pass, Fallback;
    if n > 0 {
      RoundsReach(c, n - 1);
      RoundsKept(c, n - 1);
      PassKept(c, Rounds(c, n - 1), |c.jobs|);
      FallbackKept(c, Pass(c, Rounds(c, n - 1), |c.jobs|));
      if |Rounds(c, n - 1).order| < |Names(c.jobs)| { RoundGrows(c, Rounds(c, n - 1)); }
    }
  }

  /** The loop reaches its bound exactly if no name is used twice. */
  lemma FinishesIffDistinct(c: Config)
    ensures (exists n :: |Rounds(c, n).order| >= |c.jobs|) <==> Distinct(c.jobs)
  {
    NamesCount(c.jobs);
    if Distinct(c.jobs) {
      RoundsReach(c, |c.jobs|);
    } else {
      forall n: nat ensures |Rounds(c, n).order| < |c.jobs| {
        RoundsKept(c, n);
        KeptIsShort(c, Rounds(c, n));
      }
    }
  }

  // ----- the ordering

  /** The first `cut` jobs are exactly the grounded ones, each behind all that could hold it back; the others
      follow, in the given order or sorted by name. */
  ghost predicate Ordered(c: Config, order: seq<Job>, cut: nat) {
    && multiset(order) == multiset(c.jobs)
    && cut <= |order|
    && (forall j <- c.jobs :: j in order[..cut] <==> Grounded(c, j.name))
    && (forall i :: 0 <= i < cut ==> Ready(c, order[i], Names(order[..i])))
    && var rest := NotDone(c.jobs, Names(order[..cut]));
       order[cut..] == if c.sortRest then SortByName(rest) else rest
  }

  lemma CompleteIsOrdered(c: Config, st: State)
    requires Distinct(c.jobs) && Sound(c, st) && AllGrounded(c, st) && |st.order| == |c.jobs|
    ensures Ordered(c, st.order, |st.order|)
  {
    NamesCount(st.order);
    NamesCount(c.jobs);
    SubsetSize(Names(st.order), Names(c.jobs));
    AllOf(Names(st.order), Names(c.jobs));
    SameNamesSameJobs(c.jobs, st.order);
    SamePermutation(c.jobs, st.order);
    assert st.order[..|st.order|] == st.order;
    NothingLeft(c.jobs, st.done);
    assert SortByName([]) == [];
  }

  lemma AllOf(a: set<Name>, b: set<Name>)
    requires a <= b && |a| >= |b|
    ensures a == b
  {
    assert b == a + (b - a);
  }

  lemma {:induction false} NothingLeft(js: seq<Job>, done: set<Name>)
    requires forall j <- js :: j.name in done
    ensures NotDone(js, done) == []
  {
    if js != [] { NothingLeft(js[..|js| - 1], done); }
  }

  lemma PrefixIsGroundedPart(c: Config, st: State, order: seq<Job>)
    requires Distinct(c.jobs) && Sound(c, st) && st.order <= order
    requires forall x :: x in st.done <==> Grounded(c, x)
    ensures order[..|st.order|] == st.order
    ensures forall j <- c.jobs :: j in st.order <==> Grounded(c, j.name)
    ensures forall i :: 0 <= i < |st.order| ==> Ready(c, order[i], Names(order[..i]))
  {
    forall j <- c.jobs ensures j in st.order <==> Grounded(c, j.name) {
      if j.name in st.done {
        var k := JobNamed(st.order, j.name);
        SameJob(c.jobs, j, k);
      }
    }
    forall i | 0 <= i < |st.order| ensures Ready(c, order[i], Names(order[..i])) {
      assert order[..i] == st.order[..i];
    }
  }

  lemma FallbackIsOrdered(c: Config, st: State)
    requires Distinct(c.jobs) && Sound(c, st) && AllGrounded(c, st)
    requires |Pass(c, st, |c.jobs|).order| == |st.order|
    ensures Ordered(c, Fallback(c, st).order, |st.order|) && |Fallback(c, st).order| == |c.jobs|
  {
    hide Pass, Rest, SortByName, NotDone, GroundedIn, Ready, Grounded, AllGrounded, Names;
    var all := Fallback(c, st);
    FallbackKept(c, st);
    SameNamesSameJobs(c.jobs, all.order);
    SamePermutation(c.jobs, all.order);
    IdleStateIsGroundedPart(c, st);
    PrefixIsGroundedPart(c, st, all.order);
    RestIsNotDone(c.jobs, st.done, |c.jobs|);
    assert c.jobs[..|c.jobs|] == c.jobs;
  }

  /** Nothing is left to the fallback exactly if the jobs can be ordered. */
  lemma FallbackIffNotOrderable(c: Config, order: seq<Job>, cut: nat)
    requires Distinct(c.jobs) && Ordered(c, order, cut)
    ensures cut == |order| <==> Orderable(c)
  {
    OrderableMeansGrounded(c);
    SamePermutation(c.jobs, order);
    if cut == |order| {
      assert order[..cut] == order;
    } else {
      var left := order[cut];
      forall i | 0 <= i < cut ensures order[i] != left { assert order[i].name != order[cut].name; }
      assert left in c.jobs && left !in order[..cut];
    }
  }

  // ----- the order in which the jobs are taken: pass by pass

  /** The job at `i` is taken in one of the first `r` passes: every need that is a job is taken in an earlier pass,
      or in the same one if it is listed before, and where undeclared needs block there are none. */
  ghost predicate TakenBy(c: Config, i: nat, r: nat)
    requires i < |c.jobs|
    decreases r, i
  {
    && r > 0 && (c.lenient || forall need <- c.jobs[i].needs :: need in Names(c.jobs))
    && forall k: nat :: k < |c.jobs| && c.jobs[k].name in c.jobs[i].needs ==>
         if k < i then TakenBy(c, k, r) else k != i && TakenBy(c, k, r - 1)
  }

  lemma {:induction false} TakenByMonotone(c: Config, i: nat, r: nat)
    requires i < |c.jobs| && TakenBy(c, i, r)
    ensures TakenBy(c, i, r + 1)
    decreases r, i
  {
    forall k: nat | k < |c.jobs| && c.jobs[k].name in c.jobs[i].needs
      ensures if k < i then TakenBy(c, k, r + 1) else k != i && TakenBy(c, k, r)
    {
      if k < i { TakenByMonotone(c, k, r); } else { TakenByMonotone(c, k, r - 1); }
    }
  }

  lemma {:induction false} TakenByLater(c: Config, i: nat, r: nat, s: nat)
    requires i < |c.jobs| && TakenBy(c, i, r) && r <= s
    ensures TakenBy(c, i, s)
    decreases s
  {
    hide TakenBy;
    if r < s {
      TakenByLater(c, i, r, s - 1);
      TakenByMonotone(c, i, s - 1);
    }
  }

  /** Job `i` is taken in an earlier pass than job `k`, or in the same one and listed before it. */
  ghost predicate Precedes(c: Config, i: nat, k: nat)
    requires i < |c.jobs| && k < |c.jobs|
  {
    && (forall r: nat :: TakenBy(c, k, r) ==> TakenBy(c, i, r))
    && ((forall r: nat :: TakenBy(c, i, r) ==> TakenBy(c, k, r)) ==> i < k)
  }

  ghost predicate PassOrder(c: Config, order: seq<Job>) {
    forall a: nat, b: nat, i: nat, k: nat ::
      a < b < |order| && i < |c.jobs| && k < |c.jobs| && order[a] == c.jobs[i] && order[b] == c.jobs[k] ==> Precedes(c, i, k)
  }

  /** In pass `p + 1`, with `n` jobs visited: what is done was taken in an earlier pass, or in this one already. */
  ghost predicate InPass(c: Config, st: State, p: nat, n: nat) {
    && PassOrder(c, st.order)
    && forall i: nat :: i < |c.jobs| ==>
         (c.jobs[i].name in st.done <==> TakenBy(c, i, p) || (i < n && TakenBy(c, i, p + 1)))
  }

  lemma ReadyIsTaken(c: Config, st: State, p: nat, n: nat)
    requires Kept(c, st) && InPass(c, st, p, n) && n < |c.jobs| && c.jobs[n].name !in st.done
    ensures Ready(c, c.jobs[n], st.done) <==> TakenBy(c, n, p + 1)
  {
    hide PassOrder, Distinct;
    var j := c.jobs[n];
    assert !TakenBy(c, n, p);
    if TakenBy(c, n, p + 1) {
      forall need <- j.needs ensures !Blocks(c, need, st.done) {
        if need in Names(c.jobs) {
          var m := JobNamed(c.jobs, need);
          var k: nat :| k < |c.jobs| && c.jobs[k] == m;
        }
      }
    }
    if Ready(c, j, st.done) {
      forall need <- j.needs ensures c.lenient || need in Names(c.jobs) {
        assert !Blocks(c, need, st.done);
        if need in st.done { var _ := JobNamed(st.order, need); }
      }
      forall k: nat | k < |c.jobs| && c.jobs[k].name in j.needs
        ensures if k < n then TakenBy(c, k, p + 1) else k != n && TakenBy(c, k, p)
      {
        assert !Blocks(c, c.jobs[k].name, st.done) && c.jobs[k].name in Names(c.jobs);
        if k < n && TakenBy(c, k, p) { TakenByMonotone(c, k, p); }
      }
    }
  }

  lemma SameIndex(js: seq<Job>, i: nat, k: nat)
    requires Distinct(js) && i < |js| && k < |js| && js[i].name == js[k].name
    ensures i == k
  {
  }

  /** What is done already was taken in an earlier pass than the job now taken, or in this one and is listed before it. */
  lemma DonePrecedes(c: Config, p: nat, n: nat, i: nat)
    requires n < |c.jobs| && i < |c.jobs| && !TakenBy(c, n, p)
    requires TakenBy(c, i, p) || (i < n && TakenBy(c, i, p + 1))
    ensures Precedes(c, i, n)
  {
    hide TakenBy;
    forall r: nat | TakenBy(c, n, r) ensures TakenBy(c, i, r) {
      if r <= p { TakenByLater(c, n, r, p); }
      if TakenBy(c, i, p) { TakenByLater(c, i, p, r); } else { TakenByLater(c, i, p + 1, r); }
    }
  }

  lemma TakingKeepsPassOrder(c: Config, st: State, p: nat, n: nat)
    requires Distinct(c.jobs) && Kept(c, st) && InPass(c, st, p, n) && n < |c.jobs| && !TakenBy(c, n, p)
    ensures PassOrder(c, st.order + [c.jobs[n]])
  {
    hide TakenBy, Precedes;
    var order := st.order + [c.jobs[n]];
    forall a: nat, b: nat, i: nat, k: nat |
      a < b < |order| && i < |c.jobs| && k < |c.jobs| && order[a] == c.jobs[i] && order[b] == c.jobs[k]
      ensures Precedes(c, i, k)
    {
      assert st.order[a] == c.jobs[i];
      if b == |st.order| {
        SameIndex(c.jobs, k, n);
        assert c.jobs[i].name in Names(st.order);
        DonePrecedes(c, p, n, i);
      } else {
        assert st.order[b] == c.jobs[k];
      }
    }
  }

  lemma VisitInPass(c: Config, st: State, p: nat, n: nat)
    requires Distinct(c.jobs) && Kept(c, st) && InPass(c, st, p, n) && n < |c.jobs|
    ensures InPass(c, Visit(c, st, c.jobs[n]), p, n + 1)
  {
    hide TakenBy, PassOrder, Ready, Kept;
    var j := c.jobs[n];
    if j.name in st.done {
      if TakenBy(c, n, p) { TakenByMonotone(c, n, p); }
    } else {
      ReadyIsTaken(c, st, p, n);
      if Ready(c, j, st.done) {
        TakingKeepsPassOrder(c, st, p, n);
        forall i: nat | i < |c.jobs| && c.jobs[i].name == j.name ensures i == n { SameIndex(c.jobs, i, n); }
      }
    }
  }

  lemma {:induction false} PassInPass(c: Config, st: State, p: nat, n: nat)
    requires Distinct(c.jobs) && Kept(c, st) && InPass(c, st, p, 0) && n <= |c.jobs|
    ensures InPass(c, Pass(c, st, n), p, n)
    decreases n
  {
    hide InPass, Kept, Distinct, Visit;
    if n > 0 {
      PassInPass(c, st, p, n - 1);
      PassKept(c, st, n - 1);
      VisitInPass(c, Pass(c, st, n - 1), p, n - 1);
    }
  }

  /** After a whole pass the next one begins. */
  lemma NextPass(c: Config, st: State, p: nat)
    requires Distinct(c.jobs) && Kept(c, st) && InPass(c, st, p, 0)
    ensures InPass(c, Pass(c, st, |c.jobs|), p + 1, 0)
  {
    hide TakenBy, PassOrder, Pass;
    PassInPass(c, st, p, |c.jobs|);
    forall i: nat | i < |c.jobs| && TakenBy(c, i, p) ensures TakenBy(c, i, p + 1) { TakenByMonotone(c, i, p); }
  }

  lemma StartOfPasses(c: Config)
    ensures InPass(c, START, 0, 0)
  {
  }

  lemma TakenInOrder(c: Config, st: State, p: nat)
    requires InPass(c, st, p, 0)
    ensures PassOrder(c, st.order)
  {
  }

  lemma NeedIsAhead(c: Config, order: seq<Job>, b: nat, x: Job, need: Name) returns (d: nat)
    requires b < |order| && order[b] == x && Ready(c, x, Names(order[..b])) && need in x.needs
    requires !c.lenient || need in Names(c.jobs)
    ensures d < b && order[d].name == need
  {
    assert !Blocks(c, need, Names(order[..b]));
    var j := JobNamed(order[..b], need);
    d :| d < b && order[..b][d] == j;
  }

  lemma HeldBackBy(c: Config, i: nat, r: nat) returns (m: nat)
    requires i < |c.jobs| && r > 0 && !TakenBy(c, i, r) && forall need <- c.jobs[i].needs :: c.lenient || need in Names(c.jobs)
    ensures m < |c.jobs| && c.jobs[m].name in c.jobs[i].needs && (m < i ==> !TakenBy(c, m, r))
  {
    m :| m < |c.jobs| && c.jobs[m].name in c.jobs[i].needs
         && !(if m < i then TakenBy(c, m, r) else m != i && TakenBy(c, m, r - 1));
  }

  /** A job that is listed before another and taken behind it was held back by a need that is taken behind that
      other job, or is listed behind the job itself. */
  lemma NeedsExplainOrder(c: Config, order: seq<Job>, i: nat, k: nat, a: nat, b: nat) returns (m: nat, d: nat)
    requires Distinct(c.jobs) && Distinct(order) && (forall j <- order :: j in c.jobs) && PassOrder(c, order)
    requires forall e: nat :: e < |order| ==> Ready(c, order[e], Names(order[..e]))
    requires i < k < |c.jobs| && a < b < |order| && order[a] == c.jobs[k] && order[b] == c.jobs[i]
    ensures m < |c.jobs| && d < b && order[d] == c.jobs[m] && c.jobs[m].name in c.jobs[i].needs && (i < m || a < d)
  {
    hide Ready, TakenBy;
    assert Precedes(c, k, i);
    var r: nat :| TakenBy(c, k, r) && !TakenBy(c, i, r);
    var x := c.jobs[i];
    forall need <- x.needs ensures c.lenient || need in Names(c.jobs) {
      if !c.lenient {
        var e := NeedIsAhead(c, order, b, x, need);
        assert order[e] in c.jobs;
      }
    }
    NeverInPassNone(c, k, r);
    m := HeldBackBy(c, i, r);
    assert c.jobs[m].name in Names(c.jobs);
    d := NeedIsAhead(c, order, b, x, c.jobs[m].name);
    SameJob(c.jobs, order[d], c.jobs[m]);
    if m < i && d == a { SameIndex(c.jobs, m, k); }
  }

  lemma NeverInPassNone(c: Config, k: nat, r: nat)
    requires k < |c.jobs| && TakenBy(c, k, r)
    ensures r > 0
  {
  }

  /** Which jobs there are, and this, leave only one order. */
  lemma {:induction false} OneOrder(c: Config, f: seq<Job>, g: seq<Job>)
    requires Distinct(f) && Distinct(g) && (forall j <- f :: j in c.jobs) && forall j :: j in f <==> j in g
    requires PassOrder(c, f) && PassOrder(c, g)
    ensures f == g
    decreases |f|
  {
    hide PassOrder, Distinct;
    assert g != [] ==> g[0] in g;
    if f != [] {
      var x := f[|f| - 1];
      assert x in g;
      var y := g[|g| - 1];
      assert y in f;
      if x != y { LastsAgree(c, f, g); }
      var f', g' := f[..|f| - 1], g[..|g| - 1];
      assert f == f' + [x] && g == g' + [x];
      forall j ensures j in f' <==> j in g' { NotInFront(f, j); NotInFront(g, j); }
      FrontInOrder(c, f);
      FrontInOrder(c, g);
      OneOrder(c, f', g');
    }
  }

  lemma FrontInOrder(c: Config, f: seq<Job>)
    requires f != [] && Distinct(f) && PassOrder(c, f)
    ensures Distinct(f[..|f| - 1]) && PassOrder(c, f[..|f| - 1])
  {
    hide Precedes;
  }

  lemma NotInFront(f: seq<Job>, j: Job)
    requires Distinct(f) && f != []
    ensures j in f[..|f| - 1] <==> j in f && j != f[|f| - 1]
  {
    if j in f && j != f[|f| - 1] {
      var i :| 0 <= i < |f| && f[i] == j;
      assert f[..|f| - 1][i] == j;
    }
  }

  lemma NotBoth(c: Config, i: nat, k: nat)
    requires i < |c.jobs| && k < |c.jobs|
    ensures !(Precedes(c, i, k) && Precedes(c, k, i))
  {
    hide TakenBy;
  }

  lemma AheadOfLast(c: Config, f: seq<Job>, i: nat, k: nat)
    requires PassOrder(c, f) && f != [] && i < |c.jobs| && k < |c.jobs| && c.jobs[i] in f && c.jobs[i] != c.jobs[k]
    requires f[|f| - 1] == c.jobs[k]
    ensures Precedes(c, i, k)
  {
    hide Precedes;
    var a: nat :| a < |f| && f[a] == c.jobs[i];
  }

  lemma LastsAgree(c: Config, f: seq<Job>, g: seq<Job>)
    requires f != [] && g != [] && (forall j <- f :: j in c.jobs) && forall j :: j in f <==> j in g
    requires PassOrder(c, f) && PassOrder(c, g)
    ensures f[|f| - 1] == g[|g| - 1]
  {
    hide Precedes, PassOrder;
    var x, y := f[|f| - 1], g[|g| - 1];
    assert x in f && y in g;
    var i: nat :| i < |c.jobs| && c.jobs[i] == x;
    var k: nat :| k < |c.jobs| && c.jobs[k] == y;
    if x != y {
      AheadOfLast(c, f, k, i);
      AheadOfLast(c, g, i, k);
      NotBoth(c, i, k);
    }
  }

  /** The contract of the ordering has exactly one solution. */
  lemma OrderIsDetermined(c: Config, order: seq<Job>, cut: nat, order': seq<Job>, cut': nat)
    requires Distinct(c.jobs)
    requires Ordered(c, order, cut) && PassOrder(c, order[..cut]) && Ordered(c, order', cut') && PassOrder(c, order'[..cut'])
    ensures order == order' && cut == cut'
  {
    hide PassOrder, Grounded, Ready, Distinct, SortByName, NotDone;
    FrontIsOfJobs(c, order, cut);
    FrontIsOfJobs(c, order', cut');
    forall j ensures j in order[..cut] <==> j in order'[..cut'] {}
    OneOrder(c, order[..cut], order'[..cut']);
    assert order == order[..cut] + order[cut..] && order' == order'[..cut'] + order'[cut'..];
  }

  /** What cannot be ordered comes as it is listed, or by name. */
  lemma RestInOrder(c: Config, order: seq<Job>, cut: nat, a: nat, b: nat, i: nat, k: nat)
    requires Distinct(c.jobs) && Ordered(c, order, cut) && cut <= a < b < |order| && i < |c.jobs| && k < |c.jobs|
    requires order[a] == c.jobs[i] && order[b] == c.jobs[k]
    ensures if c.sortRest then NameLe(order[a].name, order[b].name) else i < k
  {
    hide Grounded, Ready, NameLe, SortByName, NotDone;
    var done := Names(order[..cut]);
    var rest := NotDone(c.jobs, done);
    assert order[cut..][a - cut] == order[a] && order[cut..][b - cut] == order[b];
    if c.sortRest { SortByNameSorts(rest); } else { ListedInOrder(c.jobs, done, a - cut, b - cut, i, k); }
  }

  lemma {:induction false} ListedInOrder(js: seq<Job>, done: set<Name>, a: nat, b: nat, i: nat, k: nat)
    requires Distinct(js) && a < b < |NotDone(js, done)| && i < |js| && k < |js|
    requires NotDone(js, done)[a] == js[i] && NotDone(js, done)[b] == js[k]
    ensures i < k
    decreases |js|
  {
    var last := |js| - 1;
    var front := NotDone(js[..last], done);
    NotDoneInside(js[..last], done);
    assert front[a] in js[..last];
    var m: nat :| m < last && js[m] == front[a];
    SameIndex(js, m, i);
    if k < last {
      ListedInOrder(js[..last], done, a, b, i, k);
    }
  }

  lemma FrontIsOfJobs(c: Config, order: seq<Job>, cut: nat)
    requires Distinct(c.jobs) && Ordered(c, order, cut)
    ensures Distinct(order[..cut]) && forall j <- order[..cut] :: j in c.jobs
  {
    hide Grounded, Ready, SortByName, NotDone;
    SamePermutation(c.jobs, order);
  }

  /** The first jobs of the order are the ones that can be ordered, pass by pass, the others follow, and there are
      no others exactly if all the jobs can be ordered. */
  ghost predicate OrderedAsFarAsPossible(c: Config, order: seq<Job>) {
    exists cut: nat :: Ordered(c, order, cut) && PassOrder(c, order[..cut]) && (cut == |order| <==> Orderable(c))
  }

  lemma StartIsSound(c: Config)
    ensures Sound(c, START) && AllGrounded(c, START)
  {
  }

  lemma SoundIsShort(c: Config, st: State)
    requires Sound(c, st)
    ensures |st.order| <= |c.jobs|
  {
    KeptIsShort(c, st);
  }

  method OrderJobs(c: Config) returns (order: seq<Job>)
    requires Distinct(c.jobs)
    ensures OrderedAsFarAsPossible(c, order)
    ensures exists rounds: nat :: Rounds(c, rounds).order == order
  {
    hide Sound, AllGrounded, Ordered, Orderable, Kept, Distinct, Rest, SortByName, Names, Ready, InPass, PassOrder;
    var done: set<Name> := {};
    order := [];
    StartIsSound(c);
    StartOfPasses(c);
    ghost var cut: nat, rounds: nat := 0, 0;
    while |order| < |c.jobs|
      invariant |order| <= |c.jobs| && State(order, done) == Rounds(c, rounds)
      invariant cut <= |order| && PassOrder(c, order[..cut])
      invariant cut == |order| ==> InPass(c, State(order, done), rounds, 0)
      invariant (Sound(c, State(order, done)) && AllGrounded(c, State(order, done)) && cut == |order|)
                || (|order| == |c.jobs| && Ordered(c, order, cut))
      decreases |c.jobs| - |order|
    {
      ghost var st := State(order, done);
      var progressed := false;
      for i := 0 to |c.jobs|
        invariant State(order, done) == Pass(c, st, i)
        invariant progressed <==> |order| > |st.order|
        invariant |order| >= |st.order|
      {
        var j := c.jobs[i];
        if j.name !in done {
          var ok := IsReady(c, j, done);
          if ok {
            order, done := order + [j], done + {j.name};
            progressed := true;
          }
        }
      }
      PassKeeps(c, st, |c.jobs|);
      SoundIsShort(c, State(order, done));
      RoundsKept(c, rounds);
      NextPass(c, st, rounds);
      TakenInOrder(c, State(order, done), rounds + 1);
      if !progressed {
        assert State(order, done) == st;
        var rest := TakeRest(c, done);
        FallbackIsOrdered(c, st);
        order, done := order + (if c.sortRest then SortByName(rest) else rest), done + Names(rest);
        assert order[..cut] == st.order;
      } else {
        assert order[..|order|] == order;
        cut := |order|;
      }
      rounds := rounds + 1;
    }
    if cut == |order| && Sound(c, State(order, done)) && AllGrounded(c, State(order, done)) {
      CompleteIsOrdered(c, State(order, done));
    }
    FallbackIffNotOrderable(c, order, cut);
    assert Rounds(c, rounds).order == order;
  }

  method IsReady(c: Config, j: Job, done: set<Name>) returns (ok: bool)
    ensures ok == Ready(c, j, done)
  {
    ok := true;
    for i := 0 to |j.needs|
      invariant ok && forall k :: 0 <= k < i ==> !Blocks(c, j.needs[k], done)
    {
      if Blocks(c, j.needs[i], done) { return false; }
    }
  }

  method TakeRest(c: Config, done: set<Name>) returns (rest: seq<Job>)
    ensures rest == Rest(c.jobs, done, |c.jobs|)
  {
    rest := [];
    var taken := done;
    for i := 0 to |c.jobs|
      invariant rest == Rest(c.jobs, done, i) && taken == done + Names(rest)
    {
      if c.jobs[i].name !in taken {
        rest, taken := rest + [c.jobs[i]], taken + {c.jobs[i].name};
      }
    }
  }
}
