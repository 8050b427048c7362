/** What the evaluation of conditions means, said of the tree of blocks and branches without evaluating: which
    conditions are known and hold. */
module CondMeaning {
  import opened Bytes
  import opened CondCache

  /** The attribute that n compares is known. */
  predicate Known(c: Config, env: Env, n: nat)
    requires n < |c|
  {
    c[n].comp in env.valid
  }

  /** The comparison of n comes out true; a plain else has none. */
  predicate Holds(c: Config, env: Env, n: nat)
    requires n < |c| == |env.holds|
  {
    c[n].isElse || env.holds[n]
  }

  /** The blocks that enclose n, without the global scope. */
  function Around(c: Config, n: nat): (r: set<nat>)
    requires 0 < n < |c|
    ensures forall m :: m in r ==> 0 < m < n
    decreases n
  {
    match Outer(c, n)
    case None => {}
    case Some(o) => {o} + Around(c, o)
  }

  /** The branches before n in its if/else chain. */
  function Earlier(c: Config, n: nat): (r: set<nat>)
    requires 0 < n < |c|
    ensures forall m :: m in r ==> 0 < m < n
    decreases n
  {
    match Prev(c, n)
    case None => {}
    case Some(p) => {p} + Earlier(c, p)
  }

  /** No earlier branch is taken, and it is known of each. */
  ghost predicate Passed(c: Config, env: Env, n: nat)
    requires 0 < n < |c| == |env.holds|
  {
    forall b :: b in Earlier(c, n) ==> Known(c, env, b) && !Holds(c, env, b)
  }

  /** Of its chain, n is the branch taken. */
  ghost predicate Taken(c: Config, env: Env, n: nat)
    requires 0 < n < |c| == |env.holds|
  {
    Known(c, env, n) && Holds(c, env, n) && Passed(c, env, n)
  }

  /** Of its chain, n is the first branch that is not known. */
  ghost predicate Open(c: Config, env: Env, n: nat)
    requires 0 < n < |c| == |env.holds|
  {
    !Known(c, env, n) && Passed(c, env, n)
  }

  /** Every block around n is the branch taken. */
  ghost predicate Entered(c: Config, env: Env, n: nat)
    requires 0 < n < |c| == |env.holds|
  {
    forall m :: m in Around(c, n) ==> Taken(c, env, m)
  }

  ghost predicate IsTrue(c: Config, env: Env, n: nat)
    requires 0 < n < |c| == |env.holds|
  {
    Entered(c, env, n) && Taken(c, env, n)
  }

  ghost predicate IsFalse(c: Config, env: Env, n: nat)
    requires 0 < n < |c| == |env.holds|
  {
    Entered(c, env, n) && Passed(c, env, n) && Known(c, env, n) && !Holds(c, env, n)
  }

  ghost predicate TakenBefore(c: Config, env: Env, n: nat)
    requires 0 < n < |c| == |env.holds|
  {
    exists b :: b in Earlier(c, n) && Taken(c, env, b)
  }

  ghost predicate OpenBefore(c: Config, env: Env, n: nat)
    requires 0 < n < |c| == |env.holds|
  {
    exists b :: b in Earlier(c, n) && Open(c, env, b)
  }

  /** An earlier branch is taken in n's own chain or in that of a block around it, or such a block fails. */
  ghost predicate IsSkip(c: Config, env: Env, n: nat)
    requires 0 < n < |c| == |env.holds|
  {
    exists m :: m in {n} + Around(c, n) && Entered(c, env, m) && (TakenBefore(c, env, m) || (m != n && IsFalse(c, env, m)))
  }

  /** In n's own chain, or in that of a block around it, a condition is reached that is not known. */
  ghost predicate IsUnset(c: Config, env: Env, n: nat)
    requires 0 < n < |c| == |env.holds|
  {
    exists m :: m in {n} + Around(c, n) && Entered(c, env, m) && (OpenBefore(c, env, m) || Open(c, env, m))
  }

  // ---------------------------------------------------------------- steps along the tree

  lemma AroundStep(c: Config, env: Env, n: nat)
    requires 0 < n < |c| == |env.holds|
    ensures Outer(c, n) == None ==> Around(c, n) == {} && Entered(c, env, n)
    ensures Outer(c, n).Some? ==> var o := Outer(c, n).value; Around(c, n) == {o} + Around(c, o) && (Entered(c, env, n) <==> IsTrue(c, env, o))
  {
    hide Taken;
  }

  lemma EarlierStep(c: Config, env: Env, n: nat)
    requires 0 < n < |c| == |env.holds|
    ensures Prev(c, n) == None ==> Earlier(c, n) == {} && Passed(c, env, n)
    ensures Prev(c, n).Some? ==> var p := Prev(c, n).value;
      && Earlier(c, n) == {p} + Earlier(c, p) && Outer(c, p) == Outer(c, n) && Around(c, p) == Around(c, n)
      && (Passed(c, env, n) <==> Known(c, env, p) && !Holds(c, env, p) && Passed(c, env, p))
  {
    hide Known, Holds;
    if Prev(c, n).Some? { assert LinkedNode(c, n); }
  }

  lemma BeforeStep(c: Config, env: Env, n: nat)
    requires 0 < n < |c| == |env.holds|
    ensures Prev(c, n) == None ==> !TakenBefore(c, env, n) && !OpenBefore(c, env, n)
    ensures Prev(c, n).Some? ==> var p := Prev(c, n).value;
      && (TakenBefore(c, env, n) <==> TakenBefore(c, env, p) || Taken(c, env, p))
      && (OpenBefore(c, env, n) <==> OpenBefore(c, env, p) || Open(c, env, p))
  {
    hide Taken, Open;
    EarlierStep(c, env, n);
  }

  lemma SkipStep(c: Config, env: Env, n: nat)
    requires 0 < n < |c| == |env.holds|
    ensures IsSkip(c, env, n) <==>
      || (Outer(c, n).Some? && (IsSkip(c, env, Outer(c, n).value) || IsFalse(c, env, Outer(c, n).value)))
      || (Entered(c, env, n) && TakenBefore(c, env, n))
  {
    hide Entered, TakenBefore, Taken, Passed, Known, Holds;
    AroundStep(c, env, n);
  }

  lemma UnsetStep(c: Config, env: Env, n: nat)
    requires 0 < n < |c| == |env.holds|
    ensures IsUnset(c, env, n) <==>
      (Outer(c, n).Some? && IsUnset(c, env, Outer(c, n).value)) || (Entered(c, env, n) && (OpenBefore(c, env, n) || Open(c, env, n)))
  {
    hide Entered, OpenBefore, Open;
    AroundStep(c, env, n);
  }

  /** Main result.  A condition is true if and only if it and every block around it are known to hold, and no
      earlier branch of any of them is; likewise for the three other results. */
  lemma {:induction false} EvalExact(c: Config, env: Env, n: nat)
    requires 0 < n < |c| == |env.holds|
    ensures Eval(c, env, n) == True <==> IsTrue(c, env, n)
    ensures Eval(c, env, n) == False <==> IsFalse(c, env, n)
    ensures Eval(c, env, n) == Skip <==> IsSkip(c, env, n)
    ensures Eval(c, env, n) == Unset <==> IsUnset(c, env, n)
    decreases n
  {
    hide Entered, TakenBefore, OpenBefore, Passed, IsSkip, IsUnset, Around, Earlier;
    AroundStep(c, env, n);
    EarlierStep(c, env, n);
    BeforeStep(c, env, n);
    SkipStep(c, env, n);
    UnsetStep(c, env, n);
    if Outer(c, n).Some? { EvalExact(c, env, Outer(c, n).value); }
    if Prev(c, n).Some? {
      var p := Prev(c, n).value;
      EvalExact(c, env, p);
      AroundStep(c, env, p);
      SkipStep(c, env, p);
      UnsetStep(c, env, p);
    }
  }

  /** Nothing depends on how a comparison would come out whose attribute is not known. */
  lemma {:induction false} UnknownUnread(c: Config, env: Env, other: Env, n: nat)
    requires 0 < n < |c| == |env.holds| == |other.holds| && env.valid == other.valid
    requires forall m :: 0 <= m < |c| && Known(c, env, m) ==> env.holds[m] == other.holds[m]
    ensures Eval(c, env, n) == Eval(c, other, n)
    decreases n
  {
    if Outer(c, n).Some? { UnknownUnread(c, env, other, Outer(c, n).value); }
    if Prev(c, n).Some? { UnknownUnread(c, env, other, Prev(c, n).value); }
  }
}
