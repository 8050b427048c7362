/** The cache of configuration conditions (configfile-glue.c).  Blocks nest and form if/else chains; the
    result of each is remembered per request and must be what an evaluation without memory would give.
    A change of one attribute is followed by a selective reset, which stops at entries already unset. */
module CondCache {
  import opened Bytes

  /** cond_result_t */
  datatype Result = Unset | Skip | False | True

  /** data_config: the attribute compared (0 for the global scope), the enclosing block, the neighbours in
      the if/else chain, and the blocks inside.  A plain else takes over the attribute of the branch before. */
  datatype Node = Node(comp: nat, parent: Option<nat>, prev: Option<nat>, next: Option<nat>, children: seq<nat>, isElse: bool)

  /** The order that the configuration parser enforces; entry 0 is the global scope. */
  ghost predicate Linked(c: seq<Node>) {
    && |c| > 0 && c[0].parent == None && c[0].prev == None && c[0].next == None && !c[0].isElse
    && (forall i :: 0 < i < |c| ==> LinkedNode(c, i))
    && (forall i, j :: 0 <= i < |c| && 0 <= j < |c[i].children| ==>
          0 < c[i].children[j] < |c| && c[c[i].children[j]].parent == Some(i))
  }

  ghost predicate LinkedNode(c: seq<Node>, i: nat)
    requires 0 < i < |c|
  {
    && c[i].comp != c[0].comp
    && c[i].parent.Some? && c[i].parent.value < i && i in c[c[i].parent.value].children
    && (c[i].prev.Some? ==>
          && 0 < c[i].prev.value < i && c[c[i].prev.value].next == Some(i) && !c[c[i].prev.value].isElse
          && c[c[i].prev.value].parent == c[i].parent)
    && (c[i].next.Some? ==> c[i].next.value < |c| && c[c[i].next.value].prev == Some(i))
    && (c[i].isElse ==> c[i].prev.Some? && c[i].comp == c[c[i].prev.value].comp)
  }

  type Config = c: seq<Node> | Linked(c) witness [Node(0, None, None, None, [], false)]

  /** The request: which attributes are known, and how each local comparison would come out. */
  datatype Env = Env(valid: set<nat>, holds: seq<bool>)

  /** The comparison of node n alone; a plain else holds whenever it is reached. */
  function Local(c: Config, env: Env, n: nat): (r: Result)
    requires n < |c| && |env.holds| == |c|
    ensures r == True || r == False
  {
    if c[n].isElse || env.holds[n] then True else False
  }

  /** The block around n that is evaluated: none for the global scope. */
  function Outer(c: Config, n: nat): (r: Option<nat>)
    requires 0 < n < |c|
    ensures r.Some? ==> 0 < r.value < n
  {
    assert LinkedNode(c, n);
    if c[n].parent.value != 0 then c[n].parent else None
  }

  function Prev(c: Config, n: nat): (r: Option<nat>)
    requires 0 < n < |c|
    ensures r == c[n].prev && (r.Some? ==> 0 < r.value < n)
  {
    assert LinkedNode(c, n);
    c[n].prev
  }

  /** What a failed or undecided precondition makes of a node; None lets it be compared. */
  function Blocked(outer: Option<Result>, prev: Option<Result>): Option<Result> {
    if outer == Some(Unset) then Some(Unset)
    else if outer == Some(Skip) || outer == Some(False) then Some(Skip)
    else if prev == Some(Unset) then Some(Unset)
    else if prev == Some(Skip) || prev == Some(True) then Some(Skip)
    else None
  }

  /** Evaluation without memory. */
  function Eval(c: Config, env: Env, n: nat): Result
    requires 0 < n < |c| && |env.holds| == |c|
    decreases n
  {
    var outer := if Outer(c, n).Some? then Some(Eval(c, env, Outer(c, n).value)) else None;
    var prev := if Prev(c, n).Some? then Some(Eval(c, env, Prev(c, n).value)) else None;
    match Blocked(outer, prev)
    case Some(r) => r
    case None => if c[n].comp in env.valid then Local(c, env, n) else Unset
  }

  // ---------------------------------------------------------------- the cache

  /** cond_cache_t */
  datatype Entry = Entry(result: Result, local: Result)

  type Cache = seq<Entry>

  /** config_check_cond_cached */
  function Check(c: Config, env: Env, k: Cache, n: nat): (r: (Result, Cache))
    requires 0 < n < |c| == |k| == |env.holds|
    ensures |r.1| == |k|
    decreases n, 2
  {
    if k[n].result != Unset then (k[n].result, k) else Calc(c, env, k, n)
  }

  /** A neighbour that has to be checked before n, if there is one. */
  function CheckFirst(c: Config, env: Env, k: Cache, n: nat, p: Option<nat>): (r: (Option<Result>, Cache))
    requires 0 < n < |c| == |k| == |env.holds| && (p.Some? ==> 0 < p.value < n)
    ensures |r.1| == |k|
    decreases n, 0
  {
    match p
    case None => (None, k)
    case Some(m) => var (r, k') := Check(c, env, k, m); (Some(r), k')
  }

  /** config_check_cond_nocache_calc: the enclosing block first, then the previous branch, then the
      comparison, whose result is also kept as local. */
  function Calc(c: Config, env: Env, k: Cache, n: nat): (r: (Result, Cache))
    requires 0 < n < |c| == |k| == |env.holds|
    ensures |r.1| == |k|
    decreases n, 1
  {
    var (outer, k1) := CheckFirst(c, env, k, n, Outer(c, n));
    if Blocked(outer, None).Some? then Remember(k1, n, Blocked(outer, None).value)
    else
      var (prev, k2) := CheckFirst(c, env, k1, n, Prev(c, n));
      if Blocked(outer, prev).Some? then Remember(k2, n, Blocked(outer, prev).value)
      else Remember(k2, n, Compare(c, env, k2, n))
  }

  function Compare(c: Config, env: Env, k: Cache, n: nat): Result
    requires 0 < n < |c| == |k| == |env.holds|
  {
    if c[n].comp !in env.valid then Unset
    else if k[n].local == True || k[n].local == False then k[n].local
    else Local(c, env, n)
  }

  function Remember(k: Cache, n: nat, r: Result): (Result, Cache)
    requires n < |k|
  {
    (r, k[n := Entry(r, if r == True || r == False then r else k[n].local)])
  }

  /** Everything remembered is what an evaluation without memory gives. */
  ghost predicate Agrees(c: Config, env: Env, k: Cache) {
    && |c| == |k| == |env.holds| && k[0].result == Unset
    && forall n :: 0 < n < |c| ==>
      && (k[n].result != Unset ==> k[n].result == Eval(c, env, n))
      && (k[n].local != Unset ==> k[n].local == Local(c, env, n))
  }

  /** What a check leaves of the cache: nothing is forgotten, and only n and entries before it are set. */
  ghost predicate Extends(k: Cache, k': Cache, n: nat) {
    && |k'| == |k|
    && (forall m :: 0 <= m < |k| && k[m].result != Unset ==> k'[m] == k[m])
    && (forall m :: n < m < |k| ==> k'[m] == k[m])
  }

  lemma RememberAgrees(c: Config, env: Env, k: Cache, n: nat)
    requires Agrees(c, env, k) && 0 < n < |c|
    ensures var (r, k') := Remember(k, n, Eval(c, env, n)); Agrees(c, env, k') && (k[n].result == Unset ==> Extends(k, k', n))
  {
  }

  lemma ExtendsTwice(k: Cache, k1: Cache, k2: Cache, m: nat, n: nat)
    requires Extends(k, k1, m) && Extends(k1, k2, n) && m <= n
    ensures Extends(k, k2, n)
  {
  }

  /** A check gives the result of an evaluation without memory and keeps the cache in agreement. */
  lemma {:induction false} CheckAgrees(c: Config, env: Env, k: Cache, n: nat)
    requires Agrees(c, env, k) && 0 < n < |c|
    ensures var (r, k') := Check(c, env, k, n);
      r == Eval(c, env, n) && Agrees(c, env, k') && Extends(k, k', n) && k'[n].result == r
    decreases n, 1
  {
    hide Agrees, Extends;
    AgreesAt(c, env, k, n);
    if k[n].result == Unset {
      var outer, prev := Outer(c, n), Prev(c, n);
      FirstAgrees(c, env, k, n, outer);
      var k1 := CheckFirst(c, env, k, n, outer).1;
      FirstAgrees(c, env, k1, n, prev);
      var k2 := CheckFirst(c, env, k1, n, prev).1;
      ExtendsTwice(k, k1, k2, n, n);
      AgreesAt(c, env, k2, n);
      RememberAgrees(c, env, k1, n);
      RememberAgrees(c, env, k2, n);
      ExtendsTwice(k, k1, Remember(k1, n, Eval(c, env, n)).1, n, n);
      ExtendsTwice(k, k2, Remember(k2, n, Eval(c, env, n)).1, n, n);
    }
  }

  lemma {:induction false} FirstAgrees(c: Config, env: Env, k: Cache, n: nat, p: Option<nat>)
    requires Agrees(c, env, k) && 0 < n < |c| && (p.Some? ==> 0 < p.value < n)
    ensures var (r, k') := CheckFirst(c, env, k, n, p);
      Agrees(c, env, k') && Extends(k, k', n) && k'[n] == k[n] && r == if p.Some? then Some(Eval(c, env, p.value)) else None
    decreases n, 0
  {
    if p.Some? { CheckAgrees(c, env, k, p.value); }
  }

  lemma AgreesAt(c: Config, env: Env, k: Cache, n: nat)
    requires Agrees(c, env, k) && 0 < n < |c|
    ensures |k| == |c| == |env.holds| && Extends(k, k, n)
    ensures k[n].result != Unset ==> k[n].result == Eval(c, env, n)
    ensures k[n].local != Unset ==> k[n].local == Local(c, env, n)
  {
  }

  /** An entry that is set has its enclosing block set and, unless that block failed, the previous branch. */
  ghost predicate Ordered(c: Config, k: Cache) {
    |k| == |c| && forall n :: 0 < n < |c| && k[n].result != Unset ==> OrderedAt(c, k, n)
  }

  ghost predicate OrderedAt(c: Config, k: Cache, n: nat)
    requires 0 < n < |c| == |k|
  {
    && (Outer(c, n).Some? ==> k[Outer(c, n).value].result != Unset)
    && (Prev(c, n).Some? && k[Prev(c, n).value].result == Unset ==> Failed(c, k, n))
  }

  /** The enclosing block did not come out true. */
  ghost predicate Failed(c: Config, k: Cache, n: nat)
    requires 0 < n < |c| == |k|
  {
    Outer(c, n).Some? && (k[Outer(c, n).value].result == False || k[Outer(c, n).value].result == Skip)
  }

  lemma Kept(k: Cache, k': Cache, n: nat, m: nat)
    requires Extends(k, k', n) && m < |k|
    ensures k[m].result != Unset ==> k'[m] == k[m]
  {
  }

  lemma RememberOrdered(c: Config, k: Cache, n: nat, r: Result)
    requires Ordered(c, k) && 0 < n < |c| && k[n].result == Unset && (r != Unset ==> OrderedAt(c, k, n))
    ensures Ordered(c, Remember(k, n, r).1)
  {
    var k' := Remember(k, n, r).1;
    forall m | 0 < m < |c| && k'[m].result != Unset ensures OrderedAt(c, k', m) {
      assert m != n ==> OrderedAt(c, k, m);
    }
  }

  lemma {:induction false} CheckOrdered(c: Config, env: Env, k: Cache, n: nat)
    requires Agrees(c, env, k) && Ordered(c, k) && 0 < n < |c|
    ensures Ordered(c, Check(c, env, k, n).1)
    decreases n, 1
  {
    hide Agrees, Ordered, Extends;
    AgreesAt(c, env, k, n);
    if k[n].result == Unset {
      var outer, prev := Outer(c, n), Prev(c, n);
      FirstAgrees(c, env, k, n, outer);
      FirstOrdered(c, env, k, n, outer);
      var k1 := CheckFirst(c, env, k, n, outer).1;
      FirstAgrees(c, env, k1, n, prev);
      FirstOrdered(c, env, k1, n, prev);
      var k2 := CheckFirst(c, env, k1, n, prev).1;
      SetFirst(c, env, k, n, outer);
      SetFirst(c, env, k1, n, prev);
      if outer.Some? { Kept(k1, k2, n, outer.value); }
      var r := Calc(c, env, k, n).0;
      if Blocked(CheckFirst(c, env, k, n, outer).0, None).Some? { RememberOrdered(c, k1, n, r); } else { RememberOrdered(c, k2, n, r); }
    }
  }

  lemma {:induction false} FirstOrdered(c: Config, env: Env, k: Cache, n: nat, p: Option<nat>)
    requires Agrees(c, env, k) && Ordered(c, k) && 0 < n < |c| && (p.Some? ==> 0 < p.value < n)
    ensures Ordered(c, CheckFirst(c, env, k, n, p).1)
    decreases n, 0
  {
    if p.Some? { CheckOrdered(c, env, k, p.value); }
  }

  /** A check leaves its entry set to what it returns. */
  lemma SetFirst(c: Config, env: Env, k: Cache, n: nat, p: Option<nat>)
    requires Agrees(c, env, k) && 0 < n < |c| && (p.Some? ==> 0 < p.value < n)
    ensures var (r, k') := CheckFirst(c, env, k, n, p); p.Some? ==> k'[p.value].result == r.value
  {
    if p.Some? { CheckAgrees(c, env, k, p.value); }
  }

  lemma {:induction false} EvalGrows(c: Config, env: Env, more: Env, n: nat)
    requires 0 < n < |c| == |env.holds| && env.valid <= more.valid && env.holds == more.holds
    ensures Eval(c, env, n) != Unset ==> Eval(c, more, n) == Eval(c, env, n)
    decreases n
  {
    if Outer(c, n).Some? { EvalGrows(c, env, more, Outer(c, n).value); }
    if Prev(c, n).Some? { EvalGrows(c, env, more, Prev(c, n).value); }
  }

  /** Attributes that become known leave the cache valid. */
  lemma KnowMore(c: Config, env: Env, more: Env, k: Cache)
    requires Agrees(c, env, k) && env.valid <= more.valid && env.holds == more.holds
    ensures Agrees(c, more, k)
  {
    forall n | 0 < n < |c| ensures Eval(c, env, n) != Unset ==> Eval(c, more, n) == Eval(c, env, n) {
      EvalGrows(c, env, more, n);
    }
  }

  // ---------------------------------------------------------------- the selective reset

  /** config_cond_clear_node: an unset entry stops it; else the entry, the first branches inside it and the
      next branch are cleared. */
  function Clear(c: Config, k: Cache, n: nat): (k': Cache)
    requires n < |c| == |k|
    ensures |k'| == |k|
    decreases |c| - n, |c[n].children| + 1
  {
    if k[n].result == Unset then k
    else
      var k1 := ClearInside(c, k[n := k[n].(result := Unset)], n, 0);
      match c[n].next
      case None => k1
      case Some(m) => NextLater(c, n); Clear(c, k1, m)
  }

  function ClearInside(c: Config, k: Cache, n: nat, i: nat): (k': Cache)
    requires n < |c| == |k| && i <= |c[n].children|
    ensures |k'| == |k|
    decreases |c| - n, |c[n].children| - i
  {
    if i == |c[n].children| then k
    else
      ChildLater(c, n, i);
      var m := c[n].children[i];
      ClearInside(c, if c[m].prev == None then Clear(c, k, m) else k, n, i + 1)
  }

  lemma NextLater(c: Config, n: nat)
    requires n < |c| && c[n].next.Some?
    ensures n < c[n].next.value < |c| && From(c, c[n].next.value) == Some(n)
  {
    assert LinkedNode(c, n);
    assert LinkedNode(c, c[n].next.value);
  }

  lemma ChildLater(c: Config, n: nat, i: nat)
    requires n < |c| && i < |c[n].children|
    ensures n < c[n].children[i] < |c| && c[c[n].children[i]].parent == Some(n)
  {
    assert LinkedNode(c, c[n].children[i]);
  }

  /** config_cond_cache_reset_item from entry i on */
  function ResetFrom(c: Config, k: Cache, item: nat, i: nat): (k': Cache)
    requires i <= |c| == |k|
    ensures |k'| == |k|
    decreases |c| - i
  {
    if i == |c| then k
    else ResetFrom(c, if c[i].comp == item then Clear(c, k[i := k[i].(local := Unset)], i) else k, item, i + 1)
  }

  function Reset(c: Config, k: Cache, item: nat): (k': Cache)
    requires |c| == |k|
    ensures |k'| == |k|
  {
    ResetFrom(c, k, item, 0)
  }

  /** The entry that clearing comes from: the previous branch, or for a first branch the enclosing block. */
  function From(c: Config, n: nat): (r: Option<nat>)
    requires n < |c|
    ensures r.Some? ==> r.value < n
  {
    if n == 0 then None
    else
      assert LinkedNode(c, n);
      if c[n].prev.Some? then c[n].prev else c[n].parent
  }

  ghost predicate Gone(k: Cache, k': Cache, n: nat)
    requires n < |k| == |k'|
  {
    k[n].result != Unset && k'[n].result == Unset
  }

  /** What clearing does to a cache, apart from a node ex whose followers are still to come: results are
      only unset, from a start or from a node already gone, and with a node its followers go. */
  ghost predicate Swept(c: Config, k: Cache, k': Cache, starts: set<nat>, ex: Option<nat>) {
    && |c| == |k| == |k'|
    && (forall n :: 0 <= n < |c| ==> k'[n] == k[n] || (Gone(k, k', n) && k'[n].local == k[n].local))
    && (forall n :: 0 <= n < |c| && Gone(k, k', n) ==> n in starts || (From(c, n).Some? && Gone(k, k', From(c, n).value)))
    && (forall n :: 0 <= n < |c| && From(c, n).Some? && From(c, n) != ex && Gone(k, k', From(c, n).value) ==> k'[n].result == Unset)
  }

  lemma SweptTwice(c: Config, k: Cache, k1: Cache, k2: Cache, starts: set<nat>, more: set<nat>, ex: Option<nat>)
    requires Swept(c, k, k1, starts, ex) && Swept(c, k1, k2, more, None)
    requires forall n :: n in more ==> n in starts || (n < |c| && From(c, n).Some? && Gone(k, k1, From(c, n).value))
    ensures Swept(c, k, k2, starts, ex)
  {
    forall n | 0 <= n < |c| && Gone(k, k2, n) ensures n in starts || (From(c, n).Some? && Gone(k, k2, From(c, n).value)) {
      if Gone(k, k1, n) {} else { assert Gone(k1, k2, n); }
    }
    forall n | 0 <= n < |c| && From(c, n).Some? && From(c, n) != ex && Gone(k, k2, From(c, n).value) ensures k2[n].result == Unset {
      var p := From(c, n).value;
      if Gone(k, k1, p) { assert k1[n].result == Unset; } else { assert Gone(k1, k2, p); }
    }
  }

  /** Entry n unset, and everything below still to come. */
  lemma SweptOne(c: Config, k: Cache, n: nat)
    requires n < |c| == |k| && k[n].result != Unset
    ensures Swept(c, k, k[n := k[n].(result := Unset)], {n}, Some(n))
  {
  }

  lemma SweptNone(c: Config, k: Cache, n: nat, ex: Option<nat>)
    requires n < |c| == |k|
    ensures Swept(c, k, k, {}, ex) && Swept(c, k, k, {n}, ex)
  {
  }

  lemma SweptAt(c: Config, k: Cache, k': Cache, starts: set<nat>, ex: Option<nat>, n: nat)
    requires Swept(c, k, k', starts, ex) && n < |c|
    ensures |c| == |k| == |k'| && (k[n].result == Unset ==> k'[n].result == Unset)
  {
  }

  lemma {:induction false} ClearSweeps(c: Config, k: Cache, n: nat)
    requires n < |c| == |k|
    ensures Swept(c, k, Clear(c, k, n), {n}, None) && Clear(c, k, n)[n].result == Unset
    decreases |c| - n, |c[n].children| + 1
  {
    hide Swept, ClearInside;
    SweptNone(c, k, n, None);
    if k[n].result != Unset {
      var k0 := k[n := k[n].(result := Unset)];
      SweptOne(c, k, n);
      ClearInsideSweeps(c, k, k0, n, 0);
      var k1 := ClearInside(c, k0, n, 0);
      var k2 := Clear(c, k, n);
      SweptNone(c, k1, n, None);
      if c[n].next.Some? {
        var m := c[n].next.value;
        NextLater(c, n);
        ClearSweeps(c, k1, m);
        SweptTwice(c, k, k1, k2, {n}, {m}, Some(n));
        Children(c, k1, k2, n, {m});
        SweptAt(c, k1, k2, {m}, None, n);
      }
      AllFollowers(c, k, k2, n);
    }
  }

  lemma {:induction false} ClearInsideSweeps(c: Config, k: Cache, k0: Cache, n: nat, i: nat)
    requires n < |c| && i <= |c[n].children| && Swept(c, k, k0, {n}, Some(n))
    requires |k| == |k0| == |c| && Gone(k, k0, n) && FirstBranches(c, k0, n, i)
    ensures var k1 := ClearInside(c, k0, n, i);
      Swept(c, k, k1, {n}, Some(n)) && Gone(k, k1, n) && FirstBranches(c, k1, n, |c[n].children|)
    decreases |c| - n, |c[n].children| - i
  {
    hide Swept, Clear;
    if i < |c[n].children| {
      ChildLater(c, n, i);
      var m := c[n].children[i];
      if c[m].prev == None {
        var k1 := Clear(c, k0, m);
        ClearSweeps(c, k0, m);
        SweptTwice(c, k, k0, k1, {n}, {m}, Some(n));
        SweptAt(c, k0, k1, {m}, None, n);
        Children(c, k0, k1, n, {m});
        ClearInsideSweeps(c, k, k1, n, i + 1);
      } else {
        ClearInsideSweeps(c, k, k0, n, i + 1);
      }
    }
  }

  /** The first branches among the first i blocks inside n are unset. */
  ghost predicate FirstBranches(c: Config, k: Cache, n: nat, i: nat)
    requires n < |c| == |k| && i <= |c[n].children|
  {
    forall j :: 0 <= j < i && c[n].children[j] < |c| && c[c[n].children[j]].prev == None ==> k[c[n].children[j]].result == Unset
  }

  lemma Children(c: Config, k: Cache, k': Cache, n: nat, starts: set<nat>)
    requires n < |c| && Swept(c, k, k', starts, None)
    ensures |k| == |k'| == |c| && forall i: nat :: i <= |c[n].children| && FirstBranches(c, k, n, i) ==> FirstBranches(c, k', n, i)
  {
  }

  /** With the first branches inside n and the next branch, all followers of n are unset. */
  lemma AllFollowers(c: Config, k: Cache, k': Cache, n: nat)
    requires n < |c| && Swept(c, k, k', {n}, Some(n)) && FirstBranches(c, k', n, |c[n].children|)
    requires c[n].next.Some? && c[n].next.value < |c| ==> k'[c[n].next.value].result == Unset
    ensures Swept(c, k, k', {n}, None)
  {
    forall m | 0 <= m < |c| && From(c, m) == Some(n) ensures k'[m].result == Unset {
      assert LinkedNode(c, m);
      if c[m].prev.None? {
        assert m in c[n].children;
        var j :| 0 <= j < |c[n].children| && c[n].children[j] == m;
      }
    }
  }

  /** The local results of kind item from i on are forgotten. */
  function Forget(c: Config, k: Cache, item: nat, i: nat): (k': Cache)
    requires |c| == |k|
    ensures |k'| == |k|
  {
    seq(|k|, n requires 0 <= n < |k| => if i <= n && c[n].comp == item then k[n].(local := Unset) else k[n])
  }

  function OfKind(c: Config, item: nat): set<nat> { set n | 0 <= n < |c| && c[n].comp == item }

  lemma SweptForget(c: Config, k: Cache, k': Cache, starts: set<nat>, item: nat, i: nat)
    requires Swept(c, k, k', starts, None)
    ensures Swept(c, Forget(c, k, item, i), Forget(c, k', item, i), starts, None)
  {
    var f, f' := Forget(c, k, item, i), Forget(c, k', item, i);
    assert forall n :: 0 <= n < |c| ==> (Gone(f, f', n) <==> Gone(k, k', n));
  }

  /** The reset, seen from entry i on: comparisons of kind item are forgotten, and their nodes swept. */
  lemma {:induction false} ResetSweeps(c: Config, k: Cache, item: nat, i: nat)
    requires i <= |c| == |k|
    ensures var k' := ResetFrom(c, k, item, i);
      && Swept(c, Forget(c, k, item, i), k', OfKind(c, item), None)
      && forall n :: i <= n < |c| && c[n].comp == item ==> k'[n].result == Unset
    decreases |c| - i
  {
    hide Swept, Clear;
    var k' := ResetFrom(c, k, item, i);
    if i == |c| {
      assert Forget(c, k, item, i) == k;
      SweptSame(c, k, OfKind(c, item));
    } else if c[i].comp == item {
      var kA := k[i := k[i].(local := Unset)];
      var k1 := Clear(c, kA, i);
      ClearSweeps(c, kA, i);
      ResetSweeps(c, k1, item, i + 1);
      assert Forget(c, k, item, i) == Forget(c, kA, item, i + 1);
      SweptForget(c, kA, k1, {i}, item, i + 1);
      SweptMore(c, Forget(c, kA, item, i + 1), Forget(c, k1, item, i + 1), {i}, OfKind(c, item));
      SweptTwice(c, Forget(c, k, item, i), Forget(c, k1, item, i + 1), k', OfKind(c, item), OfKind(c, item), None);
      SweptAt(c, Forget(c, k1, item, i + 1), k', OfKind(c, item), None, i);
    } else {
      assert Forget(c, k, item, i) == Forget(c, k, item, i + 1);
      ResetSweeps(c, k, item, i + 1);
    }
  }

  lemma SweptSame(c: Config, k: Cache, starts: set<nat>)
    requires |c| == |k|
    ensures Swept(c, k, k, starts, None)
  {
  }

  lemma SweptMore(c: Config, k: Cache, k': Cache, starts: set<nat>, more: set<nat>)
    requires Swept(c, k, k', starts, None) && starts <= more
    ensures Swept(c, k, k', more, None)
  {
  }

  /** n is cleared by a reset of kind item: along the chain of blocks and branches that lead to it, from a
      node of that kind down to n, every entry is set. */
  ghost predicate Cleared(c: Config, k: Cache, item: nat, n: nat)
    requires n < |c| == |k|
    decreases n
  {
    k[n].result != Unset && (c[n].comp == item || (From(c, n).Some? && Cleared(c, k, item, From(c, n).value)))
  }

  /** The reset unsets exactly the entries that Cleared names and forgets exactly the comparisons of its kind. */
  lemma ResetClears(c: Config, k: Cache, item: nat, n: nat)
    requires n < |c| == |k|
    ensures Reset(c, k, item)[n] ==
      Entry(if Cleared(c, k, item, n) then Unset else k[n].result, if c[n].comp == item then Unset else k[n].local)
  {
    var f, k' := Forget(c, k, item, 0), Reset(c, k, item);
    ResetSweeps(c, k, item, 0);
    GoneIsCleared(c, k, f, k', item, n);
    assert f[n].result == k[n].result;
  }

  lemma {:induction false} GoneIsCleared(c: Config, k: Cache, f: Cache, k': Cache, item: nat, n: nat)
    requires n < |c| == |k| && f == Forget(c, k, item, 0) && Swept(c, f, k', OfKind(c, item), None)
    requires forall m :: 0 <= m < |c| && c[m].comp == item ==> k'[m].result == Unset
    ensures Gone(f, k', n) <==> Cleared(c, k, item, n)
    decreases n
  {
    if From(c, n).Some? { GoneIsCleared(c, k, f, k', item, From(c, n).value); }
  }

  // ---------------------------------------------------------------- when the reset is enough

  /** The result of n depends on a condition of kind item: its own, or one on the way to it. */
  ghost predicate Depends(c: Config, item: nat, n: nat)
    requires n < |c|
    decreases n
  {
    c[n].comp == item || (From(c, n).Some? && Depends(c, item, From(c, n).value))
  }

  /** No entry that depends on item through another node is set while that node is unset. */
  ghost predicate NoGap(c: Config, k: Cache, item: nat)
    requires |c| == |k|
  {
    forall n :: 0 <= n < |c| && k[n].result != Unset && Depends(c, item, n) && c[n].comp != item ==>
      From(c, n).Some? && k[From(c, n).value].result != Unset
  }

  /** Every result that depends on a condition of kind item is unset. */
  ghost predicate NoneLeft(c: Config, k: Cache, item: nat)
    requires |c| == |k|
  {
    forall n :: 0 <= n < |c| && Depends(c, item, n) ==> k[n].result == Unset
  }

  lemma {:induction false} DependentCleared(c: Config, k: Cache, item: nat, n: nat)
    requires n < |c| == |k| && NoGap(c, k, item) && Depends(c, item, n)
    ensures k[n].result != Unset ==> Cleared(c, k, item, n)
    decreases n
  {
    if k[n].result != Unset && c[n].comp != item { DependentCleared(c, k, item, From(c, n).value); }
  }

  /** The selective reset clears every dependent result exactly when the cache has no gap. */
  lemma ResetSuffices(c: Config, k: Cache, item: nat)
    requires |c| == |k|
    ensures NoneLeft(c, Reset(c, k, item), item) <==> NoGap(c, k, item)
  {
    var k' := Reset(c, k, item);
    forall n | 0 <= n < |c|
      ensures k'[n].result == if Cleared(c, k, item, n) then Unset else k[n].result
    {
      ResetClears(c, k, item, n);
    }
    if NoGap(c, k, item) {
      forall n | 0 <= n < |c| && Depends(c, item, n) ensures k'[n].result == Unset { DependentCleared(c, k, item, n); }
    }
  }

  /** The results of n's neighbours do not depend on a kind that n's does not depend on. */
  lemma {:induction false} NeighboursDepend(c: Config, item: nat, n: nat)
    requires 0 < n < |c|
    ensures Prev(c, n).Some? && Depends(c, item, Prev(c, n).value) ==> Depends(c, item, n)
    ensures Outer(c, n).Some? && Depends(c, item, Outer(c, n).value) ==> Depends(c, item, n)
    decreases n
  {
    assert LinkedNode(c, n);
    if Prev(c, n).Some? { NeighboursDepend(c, item, Prev(c, n).value); }
  }

  /** Two requests whose known attributes are the same and differ at most in the one of kind item. */
  ghost predicate Differ(c: Config, env: Env, env': Env, item: nat) {
    env.valid == env'.valid && |env.holds| == |env'.holds| == |c|
    && forall n :: 0 <= n < |c| && c[n].comp != item ==> env.holds[n] == env'.holds[n]
  }

  lemma {:induction false} EvalIndependent(c: Config, env: Env, env': Env, item: nat, n: nat)
    requires 0 < n < |c| && Differ(c, env, env', item) && !Depends(c, item, n)
    ensures Eval(c, env, n) == Eval(c, env', n)
    decreases n
  {
    NeighboursDepend(c, item, n);
    if Outer(c, n).Some? { EvalIndependent(c, env, env', item, Outer(c, n).value); }
    if Prev(c, n).Some? { EvalIndependent(c, env, env', item, Prev(c, n).value); }
  }

  /** Where a result is set over a node that is unset, the block around it does not depend on item. */
  ghost predicate GapsHarmless(c: Config, k: Cache, item: nat)
    requires |c| == |k|
  {
    forall n :: 0 < n < |c| && Gap(c, k, item, n) ==> Outer(c, n).Some? && !Depends(c, item, Outer(c, n).value)
  }

  /** n depends on item through a node that is unset, and is set itself. */
  ghost predicate Gap(c: Config, k: Cache, item: nat, n: nat)
    requires n < |c| == |k|
  {
    k[n].result != Unset && Depends(c, item, n) && c[n].comp != item && k[From(c, n).value].result == Unset
  }

  /** What the reset does to entry n. */
  ghost predicate Forgotten(c: Config, k: Cache, k': Cache, item: nat, n: nat)
    requires n < |c| == |k| == |k'|
  {
    && k'[n] == Entry(if Cleared(c, k, item, n) then Unset else k[n].result, if c[n].comp == item then Unset else k[n].local)
    && (Cleared(c, k, item, n) ==> Depends(c, item, n))
  }

  /** An entry stays skipped over a change of the attribute. */
  ghost predicate StaysSkipped(c: Config, env: Env, env': Env, k: Cache, k': Cache, n: nat)
    requires 0 < n < |c| == |env.holds| == |env'.holds| == |k| == |k'|
  {
    Eval(c, env, n) == Eval(c, env', n) == k'[n].result == Skip && OrderedAt(c, k', n)
  }

  /** A dependent entry that the reset leaves set is skipped before and after the change, for a block around
      it failed that does not depend on the attribute. */
  lemma {:induction false} LeftIsSkipped(c: Config, env: Env, env': Env, k: Cache, item: nat, n: nat)
    requires Agrees(c, env, k) && Ordered(c, k) && GapsHarmless(c, k, item) && Differ(c, env, env', item) && item != c[0].comp
    requires forall m :: 0 <= m < |c| ==> Forgotten(c, k, Reset(c, k, item), item, m)
    requires 0 < n < |c| && k[n].result != Unset && Depends(c, item, n) && !Cleared(c, k, item, n)
    ensures StaysSkipped(c, env, env', k, Reset(c, k, item), n)
    decreases n
  {
    hide Reset, Depends;
    var k' := Reset(c, k, item);
    assert Forgotten(c, k, k', item, n) && OrderedAt(c, k, n) && LinkedNode(c, n);
    Via(c, item, n);
    var y := From(c, n).value;
    assert Forgotten(c, k, k', item, y);
    if k[y].result == Unset {
      var p := Outer(c, n).value;
      assert Forgotten(c, k, k', item, p);
      EvalIndependent(c, env, env', item, p);
    } else {
      LeftIsSkipped(c, env, env', k, item, y);
      assert Prev(c, n).Some? ==> Outer(c, n) == Outer(c, y);
    }
  }

  lemma Via(c: Config, item: nat, n: nat)
    requires 0 < n < |c| && Depends(c, item, n) && c[n].comp != item && item != c[0].comp
    ensures From(c, n).Some? && 0 < From(c, n).value && Depends(c, item, From(c, n).value)
    ensures Prev(c, n).Some? ==> From(c, n) == Prev(c, n)
    ensures Prev(c, n).None? ==> From(c, n) == Outer(c, n)
  {
    assert LinkedNode(c, n);
  }

  /** After a change of one attribute and the reset of its kind, a cache whose gaps are harmless agrees again. */
  lemma ResetAgrees(c: Config, env: Env, env': Env, k: Cache, item: nat)
    requires Agrees(c, env, k) && Ordered(c, k) && GapsHarmless(c, k, item) && Differ(c, env, env', item) && item != c[0].comp
    ensures Agrees(c, env', Reset(c, k, item)) && Ordered(c, Reset(c, k, item))
  {
    hide Reset, Depends, Cleared;
    var k' := Reset(c, k, item);
    forall n | 0 <= n < |c| ensures Forgotten(c, k, k', item, n) {
      ResetClears(c, k, item, n);
      NotCleared(c, k, item, n);
    }
    assert Forgotten(c, k, k', item, 0);
    forall n | 0 < n < |c|
      ensures (k'[n].result != Unset ==> k'[n].result == Eval(c, env', n) && OrderedAt(c, k', n))
      ensures (k'[n].local != Unset ==> k'[n].local == Local(c, env', n))
    {
      assert Forgotten(c, k, k', item, n);
      if k'[n].result != Unset {
        if Depends(c, item, n) {
          LeftIsSkipped(c, env, env', k, item, n);
        } else {
          assert OrderedAt(c, k, n);
          EvalIndependent(c, env, env', item, n);
          NeighboursDepend(c, item, n);
          if Outer(c, n).Some? { assert Forgotten(c, k, k', item, Outer(c, n).value); }
          if Prev(c, n).Some? { assert Forgotten(c, k, k', item, Prev(c, n).value); }
        }
      }
    }
  }

  lemma {:induction false} NotCleared(c: Config, k: Cache, item: nat, n: nat)
    requires n < |c| == |k|
    ensures Cleared(c, k, item, n) ==> Depends(c, item, n)
    decreases n
  {
    if c[n].comp != item && From(c, n).Some? { NotCleared(c, k, item, From(c, n).value); }
  }

  // ---------------------------------------------------------------- runs

  datatype Op = Ask(n: nat) | Learn(kind: nat) | Change(item: nat, holds: seq<bool>)

  datatype State = State(env: Env, cache: Cache)

  ghost predicate Possible(c: Config, s: State, op: Op) {
    match op
    case Ask(n) => 0 < n < |c|
    case Learn(_) => true
    case Change(item, holds) => item != c[0].comp && Differ(c, s.env, s.env.(holds := holds), item)
  }

  ghost predicate Sized(c: Config, s: State) { |c| == |s.cache| == |s.env.holds| }

  /** One event of a request: a condition is checked, an attribute becomes known, or an attribute changes
      and its kind is reset. */
  ghost function Do(c: Config, s: State, op: Op): (t: State)
    requires Sized(c, s) && Possible(c, s, op)
    ensures Sized(c, t)
  {
    match op
    case Ask(n) => s.(cache := Check(c, s.env, s.cache, n).1)
    case Learn(kind) => s.(env := s.env.(valid := s.env.valid + {kind}))
    case Change(item, holds) => State(s.env.(holds := holds), Reset(c, s.cache, item))
  }

  ghost predicate Runs(c: Config, s: State, ops: seq<Op>)
    requires Sized(c, s)
    decreases |ops|
  {
    ops == [] || (Possible(c, s, ops[0]) && Runs(c, Do(c, s, ops[0]), ops[1..]))
  }

  ghost function Run(c: Config, s: State, ops: seq<Op>): (t: State)
    requires Sized(c, s) && Runs(c, s, ops)
    ensures Sized(c, t)
    decreases |ops|
  {
    if ops == [] then s else Run(c, Do(c, s, ops[0]), ops[1..])
  }

  /** The state at the start of a request (config_cond_cache_reset). */
  function Start(c: Config, env: Env): State { State(env, seq(|c|, _ => Entry(Unset, Unset))) }

  /** A configuration in which resets of kind item are safe: no later branch on another attribute is nested
      in a block that depends on item. */
  ghost predicate Safe(c: Config, item: nat) {
    forall n :: 0 < n < |c| && c[n].comp != item && Prev(c, n).Some? && Outer(c, n).Some? ==> !Depends(c, item, Outer(c, n).value)
  }

  lemma SafeGaps(c: Config, k: Cache, item: nat)
    requires Ordered(c, k) && Safe(c, item) && item != c[0].comp
    ensures GapsHarmless(c, k, item)
  {
    forall n | 0 < n < |c| && Gap(c, k, item, n)
      ensures Outer(c, n).Some? && !Depends(c, item, Outer(c, n).value)
    {
      assert OrderedAt(c, k, n);
      Via(c, item, n);
    }
  }

  ghost predicate SafeOp(c: Config, op: Op) { op.Change? ==> Safe(c, op.item) }

  /** In every run whose resets are of safe kinds, the cache agrees with evaluation without memory. */
  lemma {:induction false} RunAgrees(c: Config, s: State, ops: seq<Op>)
    requires Sized(c, s) && Agrees(c, s.env, s.cache) && Ordered(c, s.cache)
    requires Runs(c, s, ops) && forall op :: op in ops ==> SafeOp(c, op)
    ensures var t := Run(c, s, ops); Agrees(c, t.env, t.cache) && Ordered(c, t.cache)
    decreases |ops|
  {
    if ops != [] {
      var op := ops[0];
      assert op in ops;
      match op {
        case Ask(n) => CheckAgrees(c, s.env, s.cache, n); CheckOrdered(c, s.env, s.cache, n);
        case Learn(kind) => KnowMore(c, s.env, s.env.(valid := s.env.valid + {kind}), s.cache);
        case Change(item, holds) =>
          SafeGaps(c, s.cache, item);
          ResetAgrees(c, s.env, s.env.(holds := holds), s.cache, item);
      }
      RunAgrees(c, Do(c, s, op), ops[1..]);
    }
  }

  /** The requests start in agreement, so every answer of such a run is the one evaluated without memory. */
  lemma EveryAnswer(c: Config, env: Env, ops: seq<Op>, n: nat)
    requires |env.holds| == |c| && Runs(c, Start(c, env), ops) && (forall op :: op in ops ==> SafeOp(c, op)) && 0 < n < |c|
    ensures var t := Run(c, Start(c, env), ops); Check(c, t.env, t.cache, n).0 == Eval(c, t.env, n)
  {
    RunAgrees(c, Start(c, env), ops);
    var t := Run(c, Start(c, env), ops);
    CheckAgrees(c, t.env, t.cache, n);
  }

  /** No block is undecided once every attribute is known. */
  lemma {:induction false} Decided(c: Config, env: Env, n: nat)
    requires 0 < n < |c| == |env.holds| && forall i :: 0 <= i < |c| ==> c[i].comp in env.valid
    ensures Eval(c, env, n) != Unset && (Eval(c, env, n) == True ==> Local(c, env, n) == True)
    decreases n
  {
    if Outer(c, n).Some? { Decided(c, env, Outer(c, n).value); }
    if Prev(c, n).Some? { Decided(c, env, Prev(c, n).value); }
  }

  // ---------------------------------------------------------------- a request that goes wrong

  /** m is n or a block around it. */
  ghost predicate Around(c: Config, n: nat, m: nat)
    requires 0 < n < |c|
    decreases n
  {
    m == n || (Outer(c, n).Some? && Around(c, Outer(c, n).value, m))
  }

  /** m is a block around n, or n, or a branch before one of them. */
  ghost predicate OnWay(c: Config, n: nat, m: nat)
    requires 0 < n < |c|
  {
    0 < m < |c| && exists a :: 0 < a < |c| && BranchOf(c, n, a, m)
  }

  ghost predicate BranchOf(c: Config, n: nat, a: nat, m: nat)
    requires 0 < n < |c| && 0 < m < |c| && 0 < a < |c|
  {
    Around(c, n, a) && m <= a && c[m].parent == c[a].parent
  }

  lemma {:induction false} AroundBefore(c: Config, n: nat, m: nat)
    requires 0 < n < |c| && Around(c, n, m)
    ensures 0 < m <= n && (m < n ==> Outer(c, n).Some? && m <= Outer(c, n).value)
    decreases n
  {
    if m != n { AroundBefore(c, Outer(c, n).value, m); }
  }

  /** Of two blocks around n, one is around the other. */
  lemma {:induction false} AroundBoth(c: Config, n: nat, a: nat, m: nat)
    requires 0 < n < |c| && Around(c, n, a) && Around(c, n, m) && m < a
    ensures 0 < a < |c| && Around(c, a, m)
    decreases n
  {
    AroundBefore(c, n, a);
    if a != n {
      AroundBefore(c, n, m);
      AroundBoth(c, Outer(c, n).value, a, m);
    }
  }

  lemma {:induction false} AroundOuter(c: Config, n: nat, a: nat)
    requires 0 < n < |c| && Around(c, n, a) && 0 < a < |c| && Outer(c, a).Some?
    ensures Around(c, n, Outer(c, a).value)
    decreases n
  {
    if a == n {
      assert Around(c, Outer(c, n).value, Outer(c, n).value);
    } else {
      AroundOuter(c, Outer(c, n).value, a);
    }
  }

  /** A branch before one of the blocks is not one of them. */
  lemma BranchApart(c: Config, n: nat, a: nat, m: nat)
    requires 0 < n < |c| && 0 < m < |c| && 0 < a < |c| && BranchOf(c, n, a, m) && m < a
    ensures !Around(c, n, m)
  {
    assert LinkedNode(c, m) && LinkedNode(c, a);
    if Around(c, n, m) {
      AroundBoth(c, n, a, m);
      AroundBefore(c, a, m);
    }
  }

  /** The way to n leads through the branches before it and the block around it. */
  lemma WayBack(c: Config, n: nat, m: nat)
    requires 0 < n < |c| && OnWay(c, n, m)
    ensures Prev(c, m).Some? ==> OnWay(c, n, Prev(c, m).value) && !Around(c, n, Prev(c, m).value)
    ensures Outer(c, m).Some? ==> OnWay(c, n, Outer(c, m).value) && Around(c, n, Outer(c, m).value)
  {
    var a :| 0 < a < |c| && BranchOf(c, n, a, m);
    assert LinkedNode(c, m) && LinkedNode(c, a);
    if Prev(c, m).Some? {
      var q := Prev(c, m).value;
      assert BranchOf(c, n, a, q);
      BranchApart(c, n, a, q);
    }
    if Outer(c, m).Some? {
      var p := Outer(c, m).value;
      AroundOuter(c, n, a);
      assert BranchOf(c, n, p, p);
    }
  }

  /** The request in which all attributes are known, and just n and the blocks around it hold. */
  ghost function Leading(c: Config, n: nat): (env: Env)
    requires 0 < n < |c|
    ensures |env.holds| == |c|
  {
    Env(set i | 0 <= i < |c| :: c[i].comp, seq(|c|, i requires 0 <= i < |c| => Around(c, n, i)))
  }

  /** In it n is active: the blocks on the way are true, the branches before them false. */
  lemma {:induction false} WayTaken(c: Config, n: nat, m: nat)
    requires 0 < n < |c| && 0 < m < |c| && OnWay(c, n, m) && (Around(c, n, m) || !c[m].isElse)
    ensures Eval(c, Leading(c, n), m) == if Around(c, n, m) then True else False
    decreases m
  {
    hide Around, OnWay;
    WayBack(c, n, m);
    assert LinkedNode(c, m);
    if Prev(c, m).Some? { WayTaken(c, n, Prev(c, m).value); }
    if Outer(c, m).Some? { WayTaken(c, n, Outer(c, m).value); }
  }

  /** The same request with one comparison the other way round. */
  ghost function Flipped(c: Config, n: nat, m: nat): (env: Env)
    requires 0 < n < |c| && m < |c|
    ensures |env.holds| == |c|
  {
    var env := Leading(c, n);
    env.(holds := env.holds[m := !env.holds[m]])
  }

  /** A node of kind item on the way to x, other than a plain else, which only takes its attribute over. */
  ghost predicate Turns(c: Config, item: nat, x: nat, m: nat)
    requires x < |c|
    decreases x
  {
    m < |c| && (if m == x then c[m].comp == item && !c[m].isElse else From(c, x).Some? && Turns(c, item, From(c, x).value, m))
  }

  lemma {:induction false} TurnedBy(c: Config, item: nat, x: nat) returns (m: nat)
    requires x < |c| && Depends(c, item, x) && item != c[0].comp
    ensures 0 < m <= x && Turns(c, item, x, m) && c[m].comp == item && !c[m].isElse
    decreases x
  {
    if c[x].comp == item && !c[x].isElse { return x; }
    if x > 0 { assert LinkedNode(c, x); }
    m := TurnedBy(c, item, From(c, x).value);
  }

  /** With it turned, nothing further on the way comes out as in the request that leads to n. */
  lemma {:induction false} WayLost(c: Config, n: nat, item: nat, m: nat, x: nat)
    requires 0 < n < |c| && 0 < x < |c| && OnWay(c, n, x) && Turns(c, item, x, m) && 0 < m
    ensures Eval(c, Flipped(c, n, m), x) != Unset && Eval(c, Flipped(c, n, m), x) != if Around(c, n, x) then True else False
    decreases x
  {
    hide Around, OnWay;
    var env := Flipped(c, n, m);
    WayBack(c, n, x);
    assert LinkedNode(c, x);
    Decided(c, env, x);
    if x != m {
      var y := From(c, x).value;
      WayLost(c, n, item, m, y);
    }
  }

  /** Two requests that differ in the attribute of kind item only: in the first the block around n fails,
      in the second n is active. */
  lemma CanTurn(c: Config, item: nat, n: nat) returns (before: Env, after: Env)
    requires 0 < n < |c| && Outer(c, n).Some? && Depends(c, item, Outer(c, n).value) && item != c[0].comp
    ensures Differ(c, before, after, item) && Eval(c, after, n) == True
    ensures Eval(c, before, Outer(c, n).value) != Unset && Eval(c, before, Outer(c, n).value) != True
  {
    var p := Outer(c, n).value;
    var m := TurnedBy(c, item, p);
    before, after := Flipped(c, n, m), Leading(c, n);
    assert BranchOf(c, n, n, n);
    WayBack(c, n, n);
    WayTaken(c, n, n);
    WayLost(c, n, item, m, p);
  }

  /** The answer of config_check_cond is that of an evaluation without memory. */
  ghost predicate Answers(c: Config, t: State, n: nat)
    requires Sized(c, t) && 0 < n < |c|
  {
    (Check(c, t.env, t.cache, n).0 == True) == (Eval(c, t.env, n) == True)
  }

  ghost predicate OnlyChanges(ops: seq<Op>, item: nat) { forall op :: op in ops && op.Change? ==> op.item == item }

  /** The request's answer for n is right after these events, among which only attribute item changes. */
  ghost predicate RightAfter(c: Config, item: nat, env: Env, ops: seq<Op>, n: nat) {
    |env.holds| == |c| && Runs(c, Start(c, env), ops) && OnlyChanges(ops, item) && 0 < n < |c| ==>
      Answers(c, Run(c, Start(c, env), ops), n)
  }

  /** Safe is exactly the condition on a configuration under which, whatever a request is like, every answer
      is right after every run in which attribute item changes. */
  lemma SafeExact(c: Config, item: nat)
    requires item != c[0].comp
    ensures Safe(c, item) <==> forall env, ops, n: nat :: RightAfter(c, item, env, ops, n)
  {
    hide Check, Eval, Run;
    if Safe(c, item) {
      forall env, ops, n: nat ensures RightAfter(c, item, env, ops, n) {
        if |env.holds| == |c| && Runs(c, Start(c, env), ops) && OnlyChanges(ops, item) && 0 < n < |c| {
          EveryAnswer(c, env, ops, n);
        }
      }
    } else {
      var n :| 0 < n < |c| && c[n].comp != item && Prev(c, n).Some? && Outer(c, n).Some? && Depends(c, item, Outer(c, n).value);
      var before, after := CanTurn(c, item, n);
      var ops := [Ask(n), Change(item, after.holds)];
      GoesWrong(c, item, before, after, n);
      assert !RightAfter(c, item, before, ops, n);
    }
  }

  /** The branch is skipped while its block fails, and stays so when the block's attribute has changed. */
  lemma GoesWrong(c: Config, item: nat, before: Env, after: Env, n: nat)
    requires item != c[0].comp && Differ(c, before, after, item) && 0 < n < |c| && Eval(c, after, n) == True
    requires c[n].comp != item && Prev(c, n).Some? && Outer(c, n).Some?
    requires Eval(c, before, Outer(c, n).value) != Unset && Eval(c, before, Outer(c, n).value) != True
    ensures var ops := [Ask(n), Change(item, after.holds)]; var s := Start(c, before);
      Runs(c, s, ops) && !Answers(c, Run(c, s, ops), n)
  {
    hide Eval;
    var s := Start(c, before);
    BranchSkipped(c, before, s.cache, n);
    var k := Do(c, s, Ask(n)).cache;
    assert LinkedNode(c, n) && !Cleared(c, k, item, Prev(c, n).value);
    ResetClears(c, k, item, n);
    assert before.(holds := after.holds) == after;
    RunTwo(c, s, Ask(n), Change(item, after.holds));
  }

  lemma RunTwo(c: Config, s: State, op: Op, later: Op)
    requires Sized(c, s) && Possible(c, s, op) && Possible(c, Do(c, s, op), later)
    ensures Runs(c, s, [op, later]) && Run(c, s, [op, later]) == Do(c, Do(c, s, op), later)
  {
    hide Check, Reset;
    assert [op, later][1..] == [later];
    RunOne(c, Do(c, s, op), later);
  }

  lemma RunOne(c: Config, s: State, op: Op)
    requires Sized(c, s) && Possible(c, s, op)
    ensures Runs(c, s, [op]) && Run(c, s, [op]) == Do(c, s, op)
  {
    hide Check, Reset;
    assert [op][0] == op && [op][1..] == [];
    assert Run(c, Do(c, s, op), []) == Do(c, s, op);
  }

  /** A nested branch is skipped when its block fails, without a look at the previous branch. */
  lemma BranchSkipped(c: Config, env: Env, k: Cache, n: nat)
    requires Agrees(c, env, k) && 0 < n < |c| && k[n].result == Unset && Outer(c, n).Some? && Prev(c, n).Some?
    requires Eval(c, env, Outer(c, n).value) != True && Eval(c, env, Outer(c, n).value) != Unset
    ensures var k' := Check(c, env, k, n).1; k'[n].result == Skip && k'[Prev(c, n).value] == k[Prev(c, n).value]
  {
    hide Eval, Agrees;
    AgreesAt(c, env, k, n);
    var p, q := Outer(c, n).value, Prev(c, n).value;
    CheckAgrees(c, env, k, p);
    assert LinkedNode(c, n) && LinkedNode(c, q);
    assert CheckFirst(c, env, k, n, Some(p)) == (Some(Eval(c, env, p)), Check(c, env, k, p).1);
  }

  // ---------------------------------------------------------------- the request

  /** The request's cond_cache, updated in place. */
  class Request {
    const c: Config
    var env: Env
    const cache: array<Entry>

    constructor (c: Config, env: Env)
      requires |env.holds| == |c|
      ensures this.c == c && this.env == env && Valid() && fresh(cache) && cache[..] == Start(c, env).cache
      ensures Agrees(c, env, cache[..]) && Ordered(c, cache[..])
    {
      this.c, this.env := c, env;
      cache := new Entry[|c|](_ => Entry(Unset, Unset));
    }

    ghost predicate Valid()
      reads this`env
    {
      cache.Length == |c| == |env.holds|
    }

    /** config_check_cond_cached */
    method CheckCached(n: nat) returns (r: Result)
      requires Valid() && 0 < n < |c|
      modifies cache
      ensures (r, cache[..]) == Check(c, env, old(cache[..]), n)
      decreases n, 2
    {
      if cache[n].result != Unset { return cache[n].result; }
      r := NocacheCalc(n);
    }

    /** config_check_cond_nocache_calc: the result, and that of the comparison itself, are remembered. */
    method NocacheCalc(n: nat) returns (r: Result)
      requires Valid() && 0 < n < |c|
      modifies cache
      ensures (r, cache[..]) == Calc(c, env, old(cache[..]), n)
      decreases n, 1
    {
      r := Nocache(n);
      cache[n] := Entry(r, if r == True || r == False then r else cache[n].local);
    }

    /** config_check_cond_nocache */
    method Nocache(n: nat) returns (r: Result)
      requires Valid() && 0 < n < |c|
      modifies cache
      ensures r == Calc(c, env, old(cache[..]), n).0
      ensures Remember(cache[..], n, r) == Calc(c, env, old(cache[..]), n)
      decreases n, 0
    {
      hide Check, Local;
      var outer, prev := Outer(c, n), Prev(c, n);
      if outer.Some? {
        var o := CheckCached(outer.value);
        match o {
          case Unset => return Unset;
          case Skip => return Skip;
          case False => return Skip;
          case True =>
        }
      }
      if prev.Some? {
        var p := CheckCached(prev.value);
        match p {
          case Unset => return Unset;
          case Skip => return Skip;
          case True => return Skip;
          case False =>
        }
      }
      if c[n].comp !in env.valid { return Unset; }
      if cache[n].local == True || cache[n].local == False { return cache[n].local; }
      r := Local(c, env, n);
    }

    /** config_check_cond: with a cache in agreement, the answer evaluated without memory. */
    method CheckCond(n: nat) returns (b: bool)
      requires Valid() && 0 < n < |c| && Agrees(c, env, cache[..]) && Ordered(c, cache[..])
      modifies cache
      ensures b == (Eval(c, env, n) == True)
      ensures Agrees(c, env, cache[..]) && Ordered(c, cache[..]) && Extends(old(cache[..]), cache[..], n)
    {
      CheckAgrees(c, env, cache[..], n);
      CheckOrdered(c, env, cache[..], n);
      if cache[n].result != Unset { return cache[n].result == True; }
      var r := NocacheCalc(n);
      b := r == True;
    }

    /** config_cond_clear_node */
    method ClearNode(n: nat)
      requires Valid() && n < |c|
      modifies cache
      ensures cache[..] == Clear(c, old(cache[..]), n)
      decreases |c| - n
    {
      if cache[n].result != Unset {
        cache[n] := cache[n].(result := Unset);
        ghost var goal := ClearInside(c, cache[..], n, 0);
        for i := 0 to |c[n].children|
          invariant ClearInside(c, cache[..], n, i) == goal
        {
          ChildLater(c, n, i);
          var m := c[n].children[i];
          if c[m].prev == None { ClearNode(m); }
        }
        if c[n].next.Some? {
          NextLater(c, n);
          ClearNode(c[n].next.value);
        }
      }
    }

    /** config_cond_cache_reset_item, after the attribute of that kind has changed: the cache agrees with the
        changed request if its gaps were harmless. */
    method ResetItem(item: nat, ghost before: Env)
      requires Valid()
      modifies cache
      ensures cache[..] == Reset(c, old(cache[..]), item)
      ensures old(Agrees(c, before, cache[..]) && Ordered(c, cache[..]) && GapsHarmless(c, cache[..], item)) && Differ(c, before, env, item) && item != c[0].comp ==>
        Agrees(c, env, cache[..]) && Ordered(c, cache[..])
    {
      hide Reset, Agrees, Ordered, GapsHarmless, Differ;
      ghost var k := cache[..];
      ResetStart(c, k, item);
      for i := 0 to |c|
        invariant ResetFrom(c, cache[..], item, i) == Reset(c, k, item)
      {
        if c[i].comp == item {
          cache[i] := cache[i].(local := Unset);
          ClearNode(i);
        }
      }
      if Agrees(c, before, k) && Ordered(c, k) && GapsHarmless(c, k, item) && Differ(c, before, env, item) && item != c[0].comp {
        ResetAgrees(c, before, env, k, item);
      }
    }
  }

  lemma ResetStart(c: Config, k: Cache, item: nat)
    requires |c| == |k|
    ensures ResetFrom(c, k, item, 0) == Reset(c, k, item)
  {
  }

  // ---------------------------------------------------------------- the stale else branch

  /** Conditions 2 and 3, the latter the else of the former, inside condition 1, each on its own attribute. */
  const NESTED: seq<Node> := [
    Node(0, None, None, None, [1], false),
    Node(1, Some(0), None, None, [2, 3], false),
    Node(2, Some(1), None, Some(3), [], false),
    Node(2, Some(1), Some(2), None, [], true)
  ]

  /** A failing block makes its else branch skipped; when the block's attribute changes, the reset stops at
      the first branch, which was never set, and the else branch stays skipped although it is now active. */
  lemma StaleElse()
    ensures Linked(NESTED)
    ensures var c: Config := NESTED; var before, after := Env({1, 2}, [false, false, false, false]), Env({1, 2}, [false, true, false, false]);
      && Differ(c, before, after, 1)
      && var k := Reset(c, Check(c, before, Start(c, before).cache, 3).1, 1);
      Check(c, after, k, 3).0 == Skip && Eval(c, after, 3) == True && !NoneLeft(c, k, 1)
  {
    var c := NESTED;
    assert forall i :: 0 < i < |c| ==> LinkedNode(c, i) by {
      assert 1 in c[0].children && 2 in c[1].children && 3 in c[1].children by {
        assert c[0].children[0] == 1 && c[1].children[0] == 2 && c[1].children[1] == 3;
      }
    }
    StaleElseOf(c);
  }

  lemma StaleElseOf(c: Config)
    requires c == NESTED
    ensures var before, after := Env({1, 2}, [false, false, false, false]), Env({1, 2}, [false, true, false, false]);
      && Differ(c, before, after, 1)
      && var k := Reset(c, Check(c, before, Start(c, before).cache, 3).1, 1);
      Check(c, after, k, 3).0 == Skip && Eval(c, after, 3) == True && !NoneLeft(c, k, 1)
  {
    var before, after := Env({1, 2}, [false, false, false, false]), Env({1, 2}, [false, true, false, false]);
    var k0 := Start(c, before).cache;
    assert Outer(c, 3) == Outer(c, 2) == Some(1) && Outer(c, 1) == None && Prev(c, 3) == Some(2);
    assert Eval(c, before, 1) == False;
    BranchSkipped(c, before, k0, 3);
    var k := Check(c, before, k0, 3).1;
    ResetClears(c, k, 1, 3);
    assert From(c, 3) == Some(2) && !Cleared(c, k, 1, 2);
    assert Eval(c, after, 1) == True && Eval(c, after, 2) == False;
    assert From(c, 2) == Some(1) && Depends(c, 1, 1) && Depends(c, 1, 2) && Depends(c, 1, 3);
  }
}
