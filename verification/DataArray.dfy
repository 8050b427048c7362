/** Arrays of keyed entries (array.c): data keeps the order of insertion, sorted the order of the keys, which
    are compared by length and then without regard to case. */
module DataArray {
  import opened Bytes

  // ---------------------------------------------------------------- keys

  function Lower(c: Byte): Byte { if 65 <= c <= 90 then c + 32 else c }

  function Fold(k: Octets): (f: Octets)
    ensures |f| == |k|
  {
    seq(|k|, i requires 0 <= i < |k| => Lower(k[i]))
  }

  /** The sign with which folded keys of one length compare. */
  function LexCompare(a: Octets, b: Octets): int
    requires |a| == |b|
  {
    if a == [] then 0
    else if a[0] < b[0] then -1
    else if a[0] > b[0] then 1
    else LexCompare(a[1..], b[1..])
  }

  function KeyCompare(a: Octets, b: Octets): int {
    if |a| < |b| then -1 else if |a| > |b| then 1 else LexCompare(Fold(a), Fold(b))
  }

  predicate Less(a: Octets, b: Octets) { KeyCompare(a, b) < 0 }

  lemma {:induction false} LexFacts(a: Octets, b: Octets)
    requires |a| == |b|
    ensures LexCompare(a, b) == -LexCompare(b, a) && -1 <= LexCompare(a, b) <= 1 && (LexCompare(a, b) == 0 <==> a == b)
  {
    if a != [] {
      LexFacts(a[1..], b[1..]);
      assert a == [a[0]] + a[1..] && b == [b[0]] + b[1..];
    }
  }

  lemma {:induction false} LexTransitive(a: Octets, b: Octets, c: Octets)
    requires |a| == |b| == |c| && LexCompare(a, b) < 0 && LexCompare(b, c) < 0
    ensures LexCompare(a, c) < 0
  {
    if a != [] && a[0] == b[0] && b[0] == c[0] { LexTransitive(a[1..], b[1..], c[1..]); }
  }

  /** The comparison is a strict order of folded keys. */
  lemma KeyOrder(a: Octets, b: Octets, c: Octets)
    ensures KeyCompare(a, b) == 0 <==> Fold(a) == Fold(b)
    ensures KeyCompare(a, b) == -KeyCompare(b, a)
    ensures Less(a, b) && Less(b, c) ==> Less(a, c)
    ensures KeyCompare(a, b) == 0 ==> KeyCompare(a, c) == KeyCompare(b, c)
  {
    if |a| == |b| {
      LexFacts(Fold(a), Fold(b));
      if |b| == |c| && Less(a, b) && Less(b, c) { LexTransitive(Fold(a), Fold(b), Fold(c)); }
    }
  }

  /** Exactly the letters A to Z are folded, each to its small form. */
  lemma LowerIs(c: Byte)
    ensures Lower(c) == if Among(c, UPPER_CASE) then c + 32 else c
    ensures Among(c, UPPER_CASE) ==> exists k :: 0 <= k < 26 && UPPER_CASE[k] as int == c && LOWER_CASE[k] as int == Lower(c)
  {
    UpperCase(c);
    if 65 <= c <= 90 {
      UpperAt(c - 65);
      LowerAt(c - 65);
    }
  }

  /** The order in words: shorter keys come first, and of keys of one length that with the smaller folded byte at
      the first place where they differ. */
  lemma LessIs(a: Octets, b: Octets)
    ensures Less(a, b) <==> |a| < |b| || (|a| == |b| && exists k :: FirstLess(Fold(a), Fold(b), k))
  {
    if |a| == |b| { LexIs(Fold(a), Fold(b)); }
  }

  ghost predicate FirstLess(a: Octets, b: Octets, k: int)
    requires |a| == |b|
  {
    0 <= k < |a| && a[..k] == b[..k] && a[k] < b[k]
  }

  lemma {:induction false} LexIs(a: Octets, b: Octets)
    requires |a| == |b|
    ensures LexCompare(a, b) < 0 <==> exists k :: FirstLess(a, b, k)
  {
    if a != [] {
      LexIs(a[1..], b[1..]);
      if k :| FirstLess(a, b, k) {
        if k > 0 {
          assert a[0] == a[..k][0] == b[..k][0] == b[0];
          assert a[1..][..k - 1] == a[..k][1..] && b[1..][..k - 1] == b[..k][1..] && a[1..][k - 1] == a[k] && b[1..][k - 1] == b[k];
          assert FirstLess(a[1..], b[1..], k - 1);
        }
      }
      if LexCompare(a, b) < 0 {
        if a[0] < b[0] {
          assert FirstLess(a, b, 0);
        } else {
          var k :| FirstLess(a[1..], b[1..], k);
          assert a[..k + 1] == [a[0]] + a[1..][..k] && b[..k + 1] == [b[0]] + b[1..][..k];
          assert FirstLess(a, b, k + 1);
        }
      }
    }
  }

  /** array_caseless_compare: bytes that are equal are not folded. */
  method CaselessCompare(a: Octets, b: Octets) returns (r: int)
    requires |a| == |b|
    ensures (r < 0 <==> LexCompare(Fold(a), Fold(b)) < 0) && (r == 0 <==> LexCompare(Fold(a), Fold(b)) == 0)
  {
    var fa, fb := Fold(a), Fold(b);
    assert fa[0..] == fa && fb[0..] == fb;
    for i := 0 to |a|
      invariant LexCompare(fa, fb) == LexCompare(fa[i..], fb[i..])
    {
      assert fa[i..][1..] == fa[i + 1..] && fb[i..][1..] == fb[i + 1..];
      var ca: int, cb: int := a[i], b[i];
      if ca == cb { continue; }
      if 65 <= ca <= 90 { ca := ca + 32; }
      if 65 <= cb <= 90 { cb := cb + 32; }
      if ca == cb { continue; }
      return ca - cb;
    }
    r := 0;
  }

  /** array_keycmp */
  method KeyCmp(a: Octets, b: Octets) returns (r: int)
    ensures (r < 0 <==> Less(a, b)) && (r == 0 <==> Fold(a) == Fold(b)) && (r > 0 <==> Less(b, a))
  {
    KeyOrder(a, b, a);
    if |a| < |b| { return -1; }
    if |a| > |b| { return 1; }
    r := CaselessCompare(a, b);
  }

  // ---------------------------------------------------------------- entries

  /** data_string; the key does not change once the entry is in an array. */
  class Entry {
    const key: Octets
    /** None is a buffer that was never set. */
    var value: Option<Octets>

    constructor (key: Octets, value: Option<Octets>)
      ensures this.key == key && this.value == value
    {
      this.key, this.value := key, value;
    }
  }

  /** Strictly increasing keys. */
  ghost predicate Ordered(s: seq<Entry>) { forall i, j :: 0 <= i < j < |s| ==> Less(s[i].key, s[j].key) }

  /** The map from folded keys that a list of entries stands for. */
  ghost function MapOf(s: seq<Entry>): map<Octets, Entry> {
    if s == [] then map[] else MapOf(s[..|s| - 1])[Fold(s[|s| - 1].key) := s[|s| - 1]]
  }

  /** No two entries with keys that are equal up to case. */
  ghost predicate Unique(s: seq<Entry>) { forall i, j :: 0 <= i < j < |s| ==> Fold(s[i].key) != Fold(s[j].key) }

  lemma {:induction false} MapOfAt(s: seq<Entry>)
    requires Unique(s)
    ensures forall e :: e in s ==> Fold(e.key) in MapOf(s) && MapOf(s)[Fold(e.key)] == e
    ensures forall f :: f in MapOf(s) ==> MapOf(s)[f] in s && Fold(MapOf(s)[f].key) == f
    ensures |MapOf(s)| == |s|
  {
    if s != [] {
      var n := |s| - 1;
      MapOfAt(s[..n]);
      assert s == s[..n] + [s[n]];
      assert Fold(s[n].key) !in MapOf(s[..n]);
    }
  }

  lemma OrderedUnique(s: seq<Entry>)
    requires Ordered(s)
    ensures Unique(s)
  {
    forall i, j | 0 <= i < j < |s| ensures Fold(s[i].key) != Fold(s[j].key) {
      KeyOrder(s[i].key, s[j].key, s[i].key);
    }
  }

  /** One entry more. */
  lemma MapPlus(s: seq<Entry>, t: seq<Entry>, e: Entry)
    requires Unique(s) && Unique(t) && e !in s && forall x :: x in t <==> x in s || x == e
    requires forall x :: x in s ==> Fold(x.key) != Fold(e.key)
    ensures Fold(e.key) !in MapOf(s) && MapOf(t) == MapOf(s)[Fold(e.key) := e] && MapOf(s) == MapOf(t) - {Fold(e.key)}
  {
    hide Fold, MapOf;
    MapOfAt(s);
    MapOfAt(t);
    var ms, mt, f := MapOf(s), MapOf(t), Fold(e.key);
    assert e in t && mt[f] == e;
    forall g | g in mt ensures g == f || (g in ms && ms[g] == mt[g]) {
      var x := mt[g];
      assert x in t && Fold(x.key) == g;
    }
    forall g | g in ms ensures g in mt && mt[g] == ms[g] && g != f {
      var x := ms[g];
      assert x in s && Fold(x.key) == g && x in t;
    }
  }

  lemma UniqueIn(s: seq<Entry>, p: nat, x: Entry)
    requires Unique(s) && p < |s| && x in s[..p] + s[p + 1..]
    ensures Fold(x.key) != Fold(s[p].key)
  {
    var i :| 0 <= i < |s| - 1 && (s[..p] + s[p + 1..])[i] == x;
    assert x == s[if i < p then i else i + 1];
  }

  /** A list without its entry at p. */
  lemma RemovedAt(s: seq<Entry>, p: nat)
    requires Ordered(s) && p < |s|
    ensures var t := s[..p] + s[p + 1..]; var f := Fold(s[p].key);
      && Ordered(t) && f !in MapOf(t) && MapOf(t) == MapOf(s) - {f} && MapOf(s) == MapOf(t)[f := s[p]]
  {
    hide Fold, Less, MapOf;
    var t := s[..p] + s[p + 1..];
    assert forall i :: 0 <= i < |t| ==> t[i] == if i < p then s[i] else s[i + 1];
    OrderedUnique(s);
    OrderedUnique(t);
    assert s == s[..p] + [s[p]] + s[p + 1..];
    forall x | x in t ensures Fold(x.key) != Fold(s[p].key) { UniqueIn(s, p, x); }
    assert forall x :: x in s <==> x in t || x == s[p];
    MapPlus(t, s, s[p]);
  }

  /** An entry put into an ordered list at its place. */
  lemma InsertedAt(s: seq<Entry>, e: Entry, p: nat)
    requires Ordered(s) && p <= |s|
    requires (forall i :: 0 <= i < p ==> Less(s[i].key, e.key)) && forall i :: p <= i < |s| ==> Less(e.key, s[i].key)
    ensures var t := s[..p] + [e] + s[p..]; Ordered(t) && MapOf(t) == MapOf(s)[Fold(e.key) := e] && Fold(e.key) !in MapOf(s)
  {
    hide Fold, Less, MapOf;
    var t := s[..p] + [e] + s[p..];
    InsertedOrder(s, e, p);
    assert t[..p] + t[p + 1..] == s;
    RemovedAt(t, p);
  }

  lemma InsertedOrder(s: seq<Entry>, e: Entry, p: nat)
    requires Ordered(s) && p <= |s|
    requires (forall i :: 0 <= i < p ==> Less(s[i].key, e.key)) && forall i :: p <= i < |s| ==> Less(e.key, s[i].key)
    ensures var t := s[..p] + [e] + s[p..]; Ordered(t) && t[p] == e
  {
    hide Less;
    var t := s[..p] + [e] + s[p..];
    forall i, j | 0 <= i < j < |t| ensures Less(t[i].key, t[j].key) {
      assert t[i] == if i < p then s[i] else if i == p then e else s[i - 1];
      assert t[j] == if j < p then s[j] else if j == p then e else s[j - 1];
    }
  }

  /** An entry replaced by one with the same folded key. */
  lemma ReplacedAt(s: seq<Entry>, p: nat, e: Entry)
    requires Ordered(s) && p < |s| && Fold(e.key) == Fold(s[p].key)
    ensures Ordered(s[p := e]) && MapOf(s[p := e]) == MapOf(s)[Fold(e.key) := e]
  {
    hide Fold, Less, MapOf, KeyCompare;
    var t := s[p := e];
    forall i, j | 0 <= i < j < |t| ensures Less(t[i].key, t[j].key) {
      SameOrder(s[p].key, e.key, s[i].key);
      SameOrder(s[p].key, e.key, s[j].key);
    }
    RemovedAt(s, p);
    RemovedAt(t, p);
    assert t[..p] + t[p + 1..] == s[..p] + s[p + 1..];
  }

  lemma SameOrder(a: Octets, b: Octets, c: Octets)
    requires Fold(a) == Fold(b)
    ensures (Less(a, c) <==> Less(b, c)) && (Less(c, a) <==> Less(c, b))
  {
    KeyOrder(a, b, c);
    KeyOrder(a, c, b);
    KeyOrder(b, c, a);
  }

  /** Two listings of the same entries. */
  ghost predicate Perm(d: seq<Entry>, s: seq<Entry>) { multiset(d) == multiset(s) }

  lemma PermIn(d: seq<Entry>, s: seq<Entry>)
    requires Perm(d, s)
    ensures forall e :: e in d <==> e in s
  {
    assert forall e :: e in s <==> e in multiset(s) <==> e in multiset(d) <==> e in d;
  }

  lemma PermInsert(d: seq<Entry>, s: seq<Entry>, p: nat, e: Entry)
    requires Perm(d, s) && p <= |s|
    ensures Perm(d + [e], s[..p] + [e] + s[p..])
  {
    assert s == s[..p] + s[p..];
  }

  lemma PermPut(d: seq<Entry>, s: seq<Entry>, i: nat, p: nat, e: Entry)
    requires Perm(d, s) && i < |d| && p < |s| && d[i] == s[p]
    ensures Perm(d[i := e], s[p := e])
  {
  }

  lemma Cancel(a: multiset<Entry>, b: multiset<Entry>, x: Entry)
    requires a + multiset{x} == b + multiset{x}
    ensures a == b
  {
    assert a == (a + multiset{x}) - multiset{x} && b == (b + multiset{x}) - multiset{x};
  }

  lemma PermDrop(d: seq<Entry>, s: seq<Entry>, i: nat, p: nat)
    requires Perm(d, s) && i < |d| && p < |s| && d[i] == s[p]
    ensures Perm(Dropped(d, i), s[..p] + s[p + 1..])
  {
    DroppedOne(d, i);
    assert s == s[..p] + [s[p]] + s[p + 1..];
    assert multiset(s) == multiset(s[..p]) + multiset{s[p]} + multiset(s[p + 1..]);
    Cancel(multiset(Dropped(d, i)), multiset(s[..p] + s[p + 1..]), d[i]);
  }

  /** The answer of array_get_index: where a key is, or where it belongs. */
  ghost predicate Located(s: seq<Entry>, k: Octets, ipos: int) {
    if ipos >= 0 then ipos < |s| && Fold(s[ipos].key) == Fold(k)
    else
      -ipos - 1 <= |s|
      && (forall i :: 0 <= i < -ipos - 1 ==> Less(s[i].key, k)) && (forall i :: -ipos - 1 <= i < |s| ==> Less(k, s[i].key))
  }

  /** The key is found exactly when some entry has it up to case, in whatever order the entries are listed. */
  lemma LocatedIsLookup(s: seq<Entry>, d: seq<Entry>, k: Octets, ipos: int)
    requires Ordered(s) && Perm(d, s) && Located(s, k, ipos)
    ensures ipos >= 0 <==> exists i :: 0 <= i < |d| && Fold(d[i].key) == Fold(k)
    ensures ipos >= 0 <==> Fold(k) in MapOf(s)
    ensures ipos >= 0 ==> MapOf(s)[Fold(k)] == s[ipos]
  {
    OrderedUnique(s);
    MapOfAt(s);
    PermIn(d, s);
    if ipos >= 0 {
      assert s[ipos] in d;
    } else {
      forall i | 0 <= i < |s| ensures Fold(s[i].key) != Fold(k) { KeyOrder(s[i].key, k, k); }
    }
  }

  // ---------------------------------------------------------------- the array

  class DataArray {
    var data: array<Entry?>
    var sorted: array<Entry?>
    var used: nat
    ghost var d: seq<Entry>
    ghost var s: seq<Entry>

    /** array_init */
    constructor (n: nat)
      ensures Valid() && d == [] && s == [] && fresh(data) && fresh(sorted)
    {
      data, sorted := new Entry?[n](_ => null), new Entry?[n](_ => null);
      used, d, s := 0, [], [];
    }

    ghost predicate Shape()
      reads this, data, sorted
    {
      && data != sorted && data.Length == sorted.Length && used <= data.Length
      && data[..used] == d && sorted[..used] == s
    }

    ghost predicate Valid()
      reads this, data, sorted
    {
      Shape() && Perm(d, s) && Ordered(s)
    }

    /** What the array stands for. */
    ghost function Contents(): map<Octets, Entry>
      reads this`s
    {
      MapOf(s)
    }

    /** array_get_index */
    method GetIndex(k: Octets) returns (ipos: int)
      requires Valid()
      ensures Located(s, k, ipos)
    {
      var lower, upper := 0, used;
      while lower != upper
        invariant 0 <= lower <= upper <= used
        invariant forall i :: 0 <= i < lower ==> Less(s[i].key, k)
        invariant forall i :: upper <= i < used ==> Less(k, s[i].key)
        decreases upper - lower
      {
        var probe := (lower + upper) / 2;
        assert sorted[..used][probe] == s[probe];
        var cmp := KeyCmp(k, sorted[probe].key);
        if cmp < 0 {
          forall i | probe <= i < used ensures Less(k, s[i].key) { KeyOrder(k, s[probe].key, s[i].key); }
          upper := probe;
        } else if cmp > 0 {
          forall i | 0 <= i <= probe ensures Less(s[i].key, k) { KeyOrder(s[i].key, s[probe].key, k); }
          lower := probe + 1;
        } else {
          return probe;
        }
      }
      ipos := -lower - 1;
    }

    /** array_get_element_klen and array_get_data_unset */
    method GetElement(k: Octets) returns (e: Entry?)
      requires Valid()
      ensures e == if Fold(k) in Contents() then Contents()[Fold(k)] else null
      ensures e == null <==> forall i :: 0 <= i < |d| ==> Fold(d[i].key) != Fold(k)
    {
      var ipos := GetIndex(k);
      LocatedIsLookup(s, d, k, ipos);
      assert ipos >= 0 ==> sorted[..used][ipos] == s[ipos];
      e := if ipos >= 0 then sorted[ipos] else null;
    }

    /** array_extend */
    method Extend(n: nat)
      requires Shape() && n > 0
      modifies this`data, this`sorted
      ensures Shape() && fresh(data) && fresh(sorted) && data.Length == old(data.Length) + n
    {
      var size := data.Length + n;
      var data', sorted' := new Entry?[size](_ => null), new Entry?[size](_ => null);
      forall i | 0 <= i < used { data'[i] := data[i]; }
      forall i | 0 <= i < used { sorted'[i] := sorted[i]; }
      assert data'[..used] == data[..used] && sorted'[..used] == sorted[..used];
      data, sorted := data', sorted';
    }

    /** array_insert_data_at_pos: the entry goes to the end of data and to pos in sorted. */
    method InsertDataAtPos(e: Entry, pos: nat)
      requires Shape() && pos <= used
      modifies this, data, sorted
      ensures Shape() && d == old(d) + [e] && s == old(s)[..pos] + [e] + old(s)[pos..]
      ensures (fresh(data) && fresh(sorted)) || (data == old(data) && sorted == old(sorted))
    {
      ghost var d0, s0 := d, s;
      if data.Length == used { Extend(16); }
      var ndx := used;
      used := used + 1;
      assert data[..ndx] == d0;
      data[ndx] := e;
      assert data[..used] == d0 + [e];
      ShiftRight(pos, ndx, e, s0);
      d, s := d0 + [e], s0[..pos] + [e] + s0[pos..];
    }

    /** memmove in sorted, away from pos, and the entry put there */
    method ShiftRight(pos: nat, ndx: nat, e: Entry, ghost s0: seq<Entry>)
      requires pos <= ndx < sorted.Length && sorted[..ndx] == s0
      modifies sorted
      ensures sorted[..ndx + 1] == s0[..pos] + [e] + s0[pos..]
    {
      assert forall i :: 0 <= i < ndx ==> sorted[..ndx][i] == s0[i];
      forall i | pos <= i < ndx { sorted[i + 1] := sorted[i]; }
      sorted[pos] := e;
    }

    /** An entry whose key is not there yet is inserted at the place that the search returned. */
    method InsertNew(e: Entry, ipos: int)
      requires Valid() && ipos < 0 && Located(s, e.key, ipos)
      modifies this, data, sorted
      ensures Valid() && Fold(e.key) !in old(Contents()) && Contents() == old(Contents())[Fold(e.key) := e] && d == old(d) + [e]
      ensures (fresh(data) && fresh(sorted)) || (data == old(data) && sorted == old(sorted))
    {
      ghost var s0 := s;
      InsertedAt(s0, e, -ipos - 1);
      PermInsert(d, s0, -ipos - 1, e);
      hide MapOf, Fold, Less, Ordered, Perm, Located;
      InsertDataAtPos(e, -ipos - 1);
    }

    /** array_get_buf_ptr: the entry with the key, a new one without value if there is none. */
    method GetBufPtr(k: Octets) returns (e: Entry)
      requires Valid()
      modifies this, data, sorted
      ensures Valid() && Fold(k) in Contents() && e == Contents()[Fold(k)]
      ensures Fold(k) in old(Contents()) ==> Contents() == old(Contents()) && d == old(d)
      ensures Fold(k) !in old(Contents()) ==>
        fresh(e) && e.key == k && e.value == None && Contents() == old(Contents())[Fold(k) := e] && d == old(d) + [e]
    {
      var ipos := GetIndex(k);
      LocatedIsLookup(s, d, k, ipos);
      if ipos >= 0 {
        assert sorted[..used][ipos] == s[ipos];
        return sorted[ipos];
      }
      e := new Entry(k, None);
      InsertNew(e, ipos);
    }

    /** array_find_or_insert, for an entry with a key: the position of the entry that is already there, or -1. */
    method FindOrInsert(e: Entry) returns (at: int)
      requires Valid()
      modifies this, data, sorted
      ensures Valid() && (at >= 0 <==> Fold(e.key) in old(Contents()))
      ensures at >= 0 ==>
        at < |s| && Fold(s[at].key) == Fold(e.key) && d == old(d) && s == old(s) && data == old(data) && sorted == old(sorted)
      ensures at < 0 ==> Contents() == old(Contents())[Fold(e.key) := e] && d == old(d) + [e]
      ensures (fresh(data) && fresh(sorted)) || (data == old(data) && sorted == old(sorted))
    {
      var ipos := GetIndex(e.key);
      LocatedIsLookup(s, d, e.key, ipos);
      if ipos >= 0 { return ipos; }
      InsertNew(e, ipos);
      at := -1;
    }

    /** array_replace: the entry takes the place of one with the same key, in both orders, or is inserted. */
    method Replace(e: Entry)
      requires Valid() && e !in d
      modifies this, data, sorted
      ensures Valid() && Contents() == old(Contents())[Fold(e.key) := e]
      ensures if Fold(e.key) in old(Contents())
              then exists i :: 0 <= i < |old(d)| && old(d)[i] == old(Contents())[Fold(e.key)] && d == old(d)[i := e]
              else d == old(d) + [e]
    {
      var at := FindOrInsert(e);
      if at < 0 { return; }
      var ipos := GetIndex(e.key);
      LocatedIsLookup(s, d, e.key, ipos);
      ReplaceAt(ipos, e);
    }

    method ReplaceAt(ipos: nat, e: Entry)
      requires Valid() && ipos < |s| && Fold(e.key) == Fold(s[ipos].key)
      modifies data, sorted, this`d, this`s
      ensures Valid() && Contents() == old(Contents())[Fold(e.key) := e]
      ensures exists i :: 0 <= i < |old(d)| && old(d)[i] == old(s)[ipos] && d == old(d)[i := e]
    {
      hide MapOf, Fold, Less, Ordered, Perm;
      ReplacedAt(s, ipos, e);
      PermIn(d, s);
      assert sorted[..used][ipos] == s[ipos] && s[ipos] in d;
      var i := FindInData(sorted[ipos]);
      PermPut(d, s, i, ipos, e);
      sorted[ipos] := e;
      data[i] := e;
      d, s := d[i := e], s[ipos := e];
    }

    /** The walk through data for an entry that is in the array. */
    method FindInData(e: Entry) returns (i: nat)
      requires used <= data.Length && data[..used] == d && e in d
      ensures i < |d| && d[i] == e
    {
      i := 0;
      while i < used && data[i] != e
        invariant i <= used && forall k :: 0 <= k < i ==> d[k] != e
      {
        assert data[..used][i] == d[i];
        i := i + 1;
      }
      assert i < used ==> data[..used][i] == d[i];
    }

    /** array_insert_unique: an entry that is already there has the value appended, after a comma. */
    method InsertUnique(e: Entry)
      requires Valid() && e !in d
      modifies this, data, sorted, d
      ensures Valid()
      ensures Fold(e.key) !in old(Contents()) ==> Contents() == old(Contents())[Fold(e.key) := e] && d == old(d) + [e]
      ensures Fold(e.key) in old(Contents()) ==> Contents() == old(Contents()) && d == old(d)
      ensures forall x :: x in old(d) ==>
        x.value == if Fold(x.key) == Fold(e.key) then Some(Merged(old(x.value), old(e.value))) else old(x.value)
    {
      var at := FindOrInsert(e);
      if at >= 0 {
        PermIn(d, s);
        assert sorted[..used][at] == s[at] && s[at] in d;
        var was := sorted[at];
        SameKey(s, d, at);
        was.value := Some(Merged(was.value, e.value));
      } else {
        AbsentKey(old(s), old(d), e.key);
      }
    }

    /** array_extract_element_klen: the entry leaves both orders; the last one takes its place in data. */
    method Extract(k: Octets) returns (e: Entry?)
      requires Valid()
      modifies this, data, sorted
      ensures Valid() && Contents() == old(Contents()) - {Fold(k)}
      ensures e == if Fold(k) in old(Contents()) then old(Contents())[Fold(k)] else null
      ensures e == null ==> d == old(d)
      ensures e != null ==> exists i :: 0 <= i < |old(d)| && old(d)[i] == e && d == Dropped(old(d), i)
    {
      var ipos := GetIndex(k);
      LocatedIsLookup(s, d, k, ipos);
      if ipos < 0 {
        assert Contents() - {Fold(k)} == Contents();
        return null;
      }
      e := TakeAt(ipos);
    }

    method TakeAt(ipos: nat) returns (e: Entry)
      requires Valid() && ipos < |s|
      modifies this, data, sorted
      ensures Valid() && e == old(s)[ipos] && Contents() == old(Contents()) - {Fold(e.key)}
      ensures exists i :: 0 <= i < |old(d)| && old(d)[i] == e && d == Dropped(old(d), i)
    {
      hide MapOf, Fold, Less, Ordered, Dropped, Perm;
      ghost var s0, d0, n := s, d, used;
      assert |s0| == n == |d0|;
      RemovedAt(s0, ipos);
      PermIn(d, s);
      assert sorted[..used][ipos] == s0[ipos] && s0[ipos] in d0;
      e := sorted[ipos];
      used := used - 1;
      ShiftLeft(ipos, used, s0);
      ghost var i := SwapOut(e, used, d0);
      s := s0[..ipos] + s0[ipos + 1..];
      d := Dropped(d0, i);
      DroppedOne(d0, i);
      PermDrop(d0, s0, i, ipos);
    }

    /** memmove in sorted, over the entry at ipos */
    method ShiftLeft(ipos: nat, last: nat, ghost s0: seq<Entry>)
      requires ipos <= last < sorted.Length && sorted[..last + 1] == s0
      modifies sorted
      ensures sorted[..last] == s0[..ipos] + s0[ipos + 1..]
    {
      assert forall i :: 0 <= i <= last ==> sorted[..last + 1][i] == s0[i];
      forall i | ipos <= i < last { sorted[i] := sorted[i + 1]; }
    }

    /** The last element of data takes the place of e, and its slot is emptied. */
    method SwapOut(e: Entry, last: nat, ghost d0: seq<Entry>) returns (ghost ndx: nat)
      requires last < data.Length && data[..last + 1] == d0 && e in d0
      modifies data
      ensures ndx <= last && d0[ndx] == e && data[..last] == Dropped(d0, ndx)
    {
      assert forall i :: 0 <= i <= last ==> data[..last + 1][i] == d0[i];
      ndx := last;
      if e != data[last] {
        var i := 0;
        while data[i] != e
          invariant i <= last && forall k :: 0 <= k < i ==> d0[k] != e
          decreases last - i
        {
          i := i + 1;
        }
        data[i] := data[last];
        ndx := i;
      }
      data[last] := null;
    }
  }

  /** The last element takes the place of the one at i. */
  function Dropped(d: seq<Entry>, i: nat): seq<Entry>
    requires i < |d|
  {
    d[i := d[|d| - 1]][..|d| - 1]
  }

  lemma DroppedOne(d: seq<Entry>, i: nat)
    requires i < |d|
    ensures |Dropped(d, i)| == |d| - 1 && multiset(d) == multiset(Dropped(d, i)) + multiset{d[i]}
  {
    var last := |d| - 1;
    var t := d[i := d[last]];
    assert t == t[..last] + [d[last]];
    assert d == t[i := d[i]];
  }

  /** Only one entry has its key. */
  lemma SameKey(s: seq<Entry>, d: seq<Entry>, at: nat)
    requires Ordered(s) && Perm(d, s) && at < |s|
    ensures forall x :: x in d ==> (Fold(x.key) == Fold(s[at].key) <==> x == s[at])
  {
    OrderedUnique(s);
    MapOfAt(s);
    PermIn(d, s);
  }

  lemma AbsentKey(s: seq<Entry>, d: seq<Entry>, k: Octets)
    requires Ordered(s) && Perm(d, s) && Fold(k) !in MapOf(s)
    ensures forall x :: x in d ==> Fold(x.key) != Fold(k)
  {
    OrderedUnique(s);
    MapOfAt(s);
    PermIn(d, s);
  }

  /** data_string_insert_dup */
  function Merged(was: Option<Octets>, value: Option<Octets>): Octets {
    var v := if value.Some? then value.value else [];
    if was.Some? then was.value + [44, SP] + v else v
  }

  /** A second value is joined with a comma and a space; its order and the first value stay. */
  lemma MergedIs(was: Octets, value: Octets)
    ensures Merged(Some(was), Some(value)) == was + Ascii(", ") + value && Merged(None, Some(value)) == value
  {
    assert Ascii(", ") == [44, SP];
  }
}
