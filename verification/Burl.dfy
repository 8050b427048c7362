/** URL normalisation (burl.c): percent-encoding, escaped slashes, dot segments and escaped spaces. */
module Burl {
  import opened Bytes
  import opened PathSimplify

  const PERCENT: Byte := 37
  const HASH: Byte := 35
  const PLUS: Byte := 43

  /** The flags that burl_normalize looks at. */
  datatype Flags = Flags(required: bool, ctrlsReject: bool, slashDecode: bool, slashReject: bool,
                         dotRemove: bool, dotReject: bool, queryPlus: bool)

  /** encoded_chars_http_uri_reqd */
  predicate Reqd(c: Byte) {
    !(c == 0x21 || c == 0x24 || 0x26 <= c <= 0x3B || c == 0x3D || 0x3F <= c <= 0x5A || c == 0x5F || 0x61 <= c <= 0x7A || c == 0x7E)
  }

  /** burl_is_unreserved */
  predicate Unreserved(c: Byte) {
    0x30 <= c <= 0x39 || 0x41 <= c <= 0x5A || 0x61 <= c <= 0x7A || c == 0x2D || c == 0x2E || c == 0x5F || c == 0x7E
  }

  /** li_utf8_invalid_byte */
  predicate BadUtf8(c: Byte) { c >= 0xF5 || c == 0xC0 || c == 0xC1 }

  /** hex_chars_uc */
  function HexUpper(d: nat): (c: Byte)
    requires d < 16
    ensures HexValue(c) == Some(d)
  {
    if d < 10 then 48 + d else 55 + d
  }

  lemma UpperDigits(d: nat)
    requires d < 16
    ensures HexUpper(d) == Ascii("0123456789ABCDEF")[d]
  {
    HexTable(d);
  }

  /** The three bytes that encode x. */
  function Escape(x: Byte): (s: Octets)
    ensures |s| == 3
  {
    [PERCENT, HexUpper(x / 16), HexUpper(x % 16)]
  }

  /** The byte that an escape at the start of s stands for. */
  function Escaped(s: Octets): (x: Option<Byte>)
    ensures x.Some? ==> |s| >= 3
  {
    if |s| >= 3 && s[0] == PERCENT && HexValue(s[1]).Some? && HexValue(s[2]).Some?
    then Some(16 * HexValue(s[1]).value + HexValue(s[2]).value) else None
  }

  lemma EscapedEscape(x: Byte, rest: Octets)
    ensures Escaped(Escape(x) + rest) == Some(x) && (Escape(x) + rest)[3..] == rest
  {
  }

  function Upper(c: Byte): Byte { if c >= 97 then c - 32 else c }

  lemma UpperEscape(s: Octets, i: nat, x: Byte)
    requires i <= |s| && Escaped(s[i..]) == Some(x)
    ensures i + 3 <= |s| && Escape(x) == [s[i], Upper(s[i + 1]), Upper(s[i + 2])]
  {
    var t := s[i..];
    assert t[0] == s[i] && t[1] == s[i + 1] && t[2] == s[i + 2];
    UpperDigit(t[1]);
    UpperDigit(t[2]);
    assert x / 16 == HexValue(t[1]).value && x % 16 == HexValue(t[2]).value;
  }

  lemma UpperDigit(c: Byte)
    requires HexValue(c).Some?
    ensures HexUpper(HexValue(c).value) == Upper(c)
  {
  }

  /** Whether an escaped x is decoded, in the path or behind the "?" of the query. */
  predicate Decodes(required: bool, inQuery: bool, x: Byte) {
    if !required then Unreserved(x)
    else !Reqd(x) && if inQuery then x != 38 && x != 61 && x != SEMICOLON && x != PLUS else x != SLASH && x != QUESTION
  }

  // ---------------------------------------------------------------- percent-encoding

  /** The basic pass over s, with j bytes before it and the query at qs (-1: not seen, -2: invalid). */
  function Basic(required: bool, s: Octets, j: nat, qs: int): (r: (Octets, int))
    decreases |s|
  {
    if s == [] then ([], qs)
    else if !Reqd(s[0]) then
      var (t, q) := Basic(required, s[1..], j + 1, if s[0] == QUESTION && qs == -1 then j else qs);
      ([s[0]] + t, q)
    else if Escaped(s).Some? then
      var x := Escaped(s).value;
      if Decodes(required, qs >= 0, x) then
        var (t, q) := Basic(required, s[3..], j + 1, qs);
        ([x] + t, q)
      else
        var (t, q) := Basic(required, s[3..], j + 3, if BadUtf8(x) then -2 else qs);
        (Escape(x) + t, q)
    else if s[0] == HASH then ([], qs)
    else
      var (t, q) := Basic(required, s[1..], j + 3, if BadUtf8(s[0]) then -2 else qs);
      (Escape(s[0]) + t, q)
  }

  /** The bytes that a percent-encoded text stands for. */
  function Decoded(s: Octets): Octets
    decreases |s|
  {
    if s == [] then []
    else if Escaped(s).Some? then [Escaped(s).value] + Decoded(s[3..])
    else [s[0]] + Decoded(s[1..])
  }

  /** The text up to the fragment. */
  function BeforeFragment(s: Octets): Octets { s[..Find(s, HASH)] }

  /** Text made of literal bytes of lits and of upper-case escapes of bytes of escs. */
  predicate Normal(s: Octets, lits: set<Byte>, escs: set<Byte>)
    decreases |s|
  {
    s == [] ||
    if s[0] == PERCENT then Escaped(s).Some? && Escaped(s).value in escs && s[..3] == Escape(Escaped(s).value) && Normal(s[3..], lits, escs)
    else s[0] in lits && Normal(s[1..], lits, escs)
  }

  function QueryLits(): set<Byte> { set c: Byte | 0 <= c < 256 && !Reqd(c) }
  function PathLits(): set<Byte> { QueryLits() - {QUESTION} }
  function Kept(required: bool, inQuery: bool): set<Byte> {
    set x: Byte | 0 <= x < 256 && !Decodes(required, inQuery, x) && !BadUtf8(x)
  }

  lemma {:induction false} QsStays(required: bool, s: Octets, j: nat, qs: int)
    requires qs == -2 || qs >= 0
    ensures Basic(required, s, j, qs).1 == qs || Basic(required, s, j, qs).1 == -2
    decreases |s|
  {
    if s != [] {
      QsStays(required, s[1..], j + 1, qs);
      QsStays(required, s[1..], j + 3, if BadUtf8(s[0]) then -2 else qs);
      if Escaped(s).Some? {
        QsStays(required, s[3..], j + 1, qs);
        QsStays(required, s[3..], j + 3, if BadUtf8(Escaped(s).value) then -2 else qs);
      }
    }
  }

  lemma NormalLit(c: Byte, t: Octets, lits: set<Byte>, escs: set<Byte>)
    requires c in lits && c != PERCENT && Normal(t, lits, escs)
    ensures Normal([c] + t, lits, escs)
  {
    assert ([c] + t)[1..] == t;
  }

  lemma NormalEscape(x: Byte, t: Octets, lits: set<Byte>, escs: set<Byte>)
    requires x in escs && Normal(t, lits, escs)
    ensures Normal(Escape(x) + t, lits, escs)
  {
    EscapedEscape(x, t);
    assert (Escape(x) + t)[..3] == Escape(x);
  }

  /** In the query, an accepted pass gives normal text. */
  lemma {:induction false} QueryNormal(required: bool, s: Octets, j: nat, qs: nat)
    requires Basic(required, s, j, qs).1 != -2
    ensures Basic(required, s, j, qs).1 == qs
    ensures Normal(Basic(required, s, j, qs).0, QueryLits(), Kept(required, true))
    decreases |s|
  {
    hide Normal;
    QsStays(required, s, j, qs);
    NormalNone(QueryLits(), Kept(required, true));
    if s == [] {
    } else if !Reqd(s[0]) {
      QueryNormal(required, s[1..], j + 1, qs);
      NormalLit(s[0], Basic(required, s[1..], j + 1, qs).0, QueryLits(), Kept(required, true));
    } else if Escaped(s).Some? {
      var x := Escaped(s).value;
      if Decodes(required, true, x) {
        QueryNormal(required, s[3..], j + 1, qs);
        NormalLit(x, Basic(required, s[3..], j + 1, qs).0, QueryLits(), Kept(required, true));
      } else {
        if BadUtf8(x) { QsStays(required, s[3..], j + 3, -2); }
        QueryNormal(required, s[3..], j + 3, qs);
        NormalEscape(x, Basic(required, s[3..], j + 3, qs).0, QueryLits(), Kept(required, true));
      }
    } else if s[0] != HASH {
      if BadUtf8(s[0]) { QsStays(required, s[1..], j + 3, -2); }
      QueryNormal(required, s[1..], j + 3, qs);
      NormalEscape(s[0], Basic(required, s[1..], j + 3, qs).0, QueryLits(), Kept(required, true));
    }
  }

  lemma NormalNone(lits: set<Byte>, escs: set<Byte>)
    ensures Normal([], lits, escs)
  {
  }

  /** A path of k bytes and, from there on, the query with its "?", in normal form. */
  predicate NormalUrl(t: Octets, k: nat, pathEscs: set<Byte>, queryEscs: set<Byte>) {
    && k <= |t| && (k < |t| ==> t[k] == QUESTION)
    && Normal(t[..k], PathLits(), pathEscs) && Normal(t[k..], QueryLits(), queryEscs)
  }

  /** The return value for a path of k bytes. */
  function QsOf(t: Octets, k: nat): int { if k < |t| then k else -1 }

  lemma UrlLit(c: Byte, t: Octets, k: nat, pathEscs: set<Byte>, queryEscs: set<Byte>)
    requires c in PathLits() && NormalUrl(t, k, pathEscs, queryEscs)
    ensures NormalUrl([c] + t, k + 1, pathEscs, queryEscs)
  {
    assert ([c] + t)[..k + 1] == [c] + t[..k] && ([c] + t)[k + 1..] == t[k..];
    NormalLit(c, t[..k], PathLits(), pathEscs);
  }

  lemma UrlEscape(x: Byte, t: Octets, k: nat, pathEscs: set<Byte>, queryEscs: set<Byte>)
    requires x in pathEscs && NormalUrl(t, k, pathEscs, queryEscs)
    ensures NormalUrl(Escape(x) + t, k + 3, pathEscs, queryEscs)
  {
    assert (Escape(x) + t)[..k + 3] == Escape(x) + t[..k] && (Escape(x) + t)[k + 3..] == t[k..];
    NormalEscape(x, t[..k], PathLits(), pathEscs);
  }

  lemma UrlQuery(t: Octets, pathEscs: set<Byte>, queryEscs: set<Byte>)
    requires Normal(t, QueryLits(), queryEscs) && (t != [] ==> t[0] == QUESTION)
    ensures NormalUrl(t, 0, pathEscs, queryEscs)
  {
    assert t[..0] == [] && t[0..] == t;
  }

  /** Where a byte may stand after the pass. */
  lemma Places(required: bool, x: Byte)
    ensures !Reqd(x) ==> x in QueryLits() && (x != QUESTION ==> x in PathLits())
    ensures Decodes(required, false, x) ==> x in PathLits()
    ensures !Decodes(required, false, x) && !BadUtf8(x) ==> x in Kept(required, false)
    ensures Reqd(x) ==> !Decodes(required, false, x)
  {
  }

  /** An accepted pass gives a normal URL, and its return value is where the query starts. */
  lemma {:induction false} BasicNormal(required: bool, s: Octets, j: nat) returns (k: nat)
    requires Basic(required, s, j, -1).1 != -2
    ensures var (t, q) := Basic(required, s, j, -1);
      NormalUrl(t, k, Kept(required, false), Kept(required, true)) && q == if k < |t| then j + k else -1
    ensures s != [] && s[0] == SLASH ==> k > 0
    decreases |s|
  {
    hide NormalUrl, Normal, Decodes, BadUtf8, Kept, PathLits, QueryLits, Escape;
    var pe, qe := Kept(required, false), Kept(required, true);
    NormalNone(QueryLits(), qe);
    UrlQuery([], pe, qe);
    k := 0;
    if s == [] { return; }
    Places(required, s[0]);
    if s[0] == QUESTION {
      var t := Basic(required, s[1..], j + 1, j).0;
      QsStays(required, s[1..], j + 1, j);
      QueryNormal(required, s[1..], j + 1, j);
      NormalLit(QUESTION, t, QueryLits(), qe);
      UrlQuery([QUESTION] + t, pe, qe);
    } else if !Reqd(s[0]) {
      k := BasicNormal(required, s[1..], j + 1);
      UrlLit(s[0], Basic(required, s[1..], j + 1, -1).0, k, pe, qe);
      k := k + 1;
    } else if Escaped(s).Some? {
      var x := Escaped(s).value;
      Places(required, x);
      if Decodes(required, false, x) {
        k := BasicNormal(required, s[3..], j + 1);
        UrlLit(x, Basic(required, s[3..], j + 1, -1).0, k, pe, qe);
        k := k + 1;
      } else {
        if BadUtf8(x) { QsStays(required, s[3..], j + 3, -2); }
        k := BasicNormal(required, s[3..], j + 3);
        UrlEscape(x, Basic(required, s[3..], j + 3, -1).0, k, pe, qe);
        k := k + 3;
      }
    } else if s[0] != HASH {
      if BadUtf8(s[0]) { QsStays(required, s[1..], j + 3, -2); }
      k := BasicNormal(required, s[1..], j + 3);
      UrlEscape(s[0], Basic(required, s[1..], j + 3, -1).0, k, pe, qe);
      k := k + 3;
    }
  }

  /** In normal form, the first element of a text and the rest. */
  lemma NormalHead(s: Octets, lits: set<Byte>, escs: set<Byte>)
    requires Normal(s, lits, escs) && s != [] && PERCENT !in lits
    ensures s[0] == PERCENT ==>
      |s| >= 3 && Escaped(s).Some? && Escaped(s).value in escs && s == Escape(Escaped(s).value) + s[3..] && Normal(s[3..], lits, escs)
    ensures s[0] != PERCENT ==> s[0] in lits && Normal(s[1..], lits, escs)
  {
    if s[0] == PERCENT { assert s == s[..3] + s[3..]; }
  }

  lemma {:induction false} QueryFixed(required: bool, s: Octets, j: nat, qs: nat)
    requires Normal(s, QueryLits(), Kept(required, true))
    ensures Basic(required, s, j, qs) == (s, qs)
    decreases |s|
  {
    hide Normal;
    if s != [] {
      NormalHead(s, QueryLits(), Kept(required, true));
      if s[0] == PERCENT {
        QueryFixed(required, s[3..], j + 3, qs);
      } else {
        QueryFixed(required, s[1..], j + 1, qs);
        assert [s[0]] + s[1..] == s;
      }
    }
  }

  /** A normal URL whose path is not empty starts with a literal or an escape of the path. */
  lemma UrlHead(s: Octets, k: nat, pathEscs: set<Byte>, queryEscs: set<Byte>)
    requires NormalUrl(s, k, pathEscs, queryEscs) && k > 0
    ensures s[0] == PERCENT ==> 3 <= k <= |s| && Escaped(s).Some? && Escaped(s).value in pathEscs &&
                                s == Escape(Escaped(s).value) + s[3..] && NormalUrl(s[3..], k - 3, pathEscs, queryEscs)
    ensures s[0] != PERCENT ==> s[0] in PathLits() && NormalUrl(s[1..], k - 1, pathEscs, queryEscs)
  {
    hide Normal, Escape, Escaped, PathLits, QueryLits;
    var p, q := s[..k], s[k..];
    LitFacts();
    NormalHead(p, PathLits(), pathEscs);
    assert s == p + q;
    if s[0] == PERCENT {
      EscapedPrefix(p, q);
      SplitAgain(p, q, 3);
    } else {
      SplitAgain(p, q, 1);
    }
  }

  lemma EscapedPrefix(p: Octets, rest: Octets)
    requires |p| >= 3
    ensures Escaped(p + rest) == Escaped(p)
    ensures forall e: Octets :: p == e + p[3..] ==> p + rest == e + (p + rest)[3..]
  {
    assert (p + rest)[3..] == p[3..] + rest;
  }

  lemma SplitAgain(p: Octets, q: Octets, n: nat)
    requires n <= |p|
    ensures var t := (p + q)[n..]; t[..|p| - n] == p[n..] && t[|p| - n..] == q
  {
  }

  /** The pass leaves normal URLs alone. */
  lemma {:induction false} BasicFixed(required: bool, s: Octets, k: nat, j: nat)
    requires NormalUrl(s, k, Kept(required, false), Kept(required, true))
    ensures Basic(required, s, j, -1) == (s, if k < |s| then j + k else -1)
    decreases |s|
  {
    hide Normal, Escape;
    var pe, qe := Kept(required, false), Kept(required, true);
    if s != [] && k == 0 {
      assert s[0..] == s;
      NormalHead(s, QueryLits(), qe);
      QueryFixed(required, s[1..], j + 1, j);
      assert [s[0]] + s[1..] == s;
    } else if s != [] {
      UrlHead(s, k, pe, qe);
      if s[0] == PERCENT {
        BasicFixed(required, s[3..], k - 3, j + 3);
      } else {
        BasicFixed(required, s[1..], k - 1, j + 1);
        assert [s[0]] + s[1..] == s;
      }
    }
  }

  lemma DecodedLit(c: Byte, t: Octets)
    requires c != PERCENT
    ensures Decoded([c] + t) == [c] + Decoded(t)
  {
    assert ([c] + t)[1..] == t;
  }

  lemma DecodedEscape(x: Byte, t: Octets)
    ensures Decoded(Escape(x) + t) == [x] + Decoded(t)
  {
    EscapedEscape(x, t);
  }

  /** The head of a text and its fragment. */
  lemma FragmentHead(s: Octets)
    requires s != []
    ensures s[0] == HASH ==> BeforeFragment(s) == []
    ensures s[0] != HASH ==> BeforeFragment(s) == [s[0]] + BeforeFragment(s[1..])
    ensures Escaped(s).Some? ==> Escaped(BeforeFragment(s)) == Escaped(s) && BeforeFragment(s) == s[..3] + BeforeFragment(s[3..])
    ensures Escaped(s).None? ==> Escaped(BeforeFragment(s)).None?
  {
    var k := Find(s, HASH);
    if s[0] != HASH { assert s[..k] == [s[0]] + s[1..][..k - 1]; }
    if Escaped(s).Some? {
      var m := Find(s[3..], HASH);
      assert Find(s[1..], HASH) == m + 2 by {
        assert s[1..][1..] == s[2..] && s[2..][1..] == s[3..];
      }
      assert s[..k] == s[..3] + s[3..][..m];
    }
  }

  /** The pass keeps what the text stands for, up to the fragment. */
  lemma {:induction false} BasicDecodes(required: bool, s: Octets, j: nat, qs: int)
    ensures Decoded(Basic(required, s, j, qs).0) == Decoded(BeforeFragment(s))
    decreases |s|
  {
    hide Escaped, Decodes, BeforeFragment, Escape, Reqd;
    if s == [] {
      NoFragment();
      return;
    }
    FragmentHead(s);
    EscapedHead(s);
    Places(required, s[0]);
    var f := BeforeFragment(s);
    if !Reqd(s[0]) {
      var q := if s[0] == QUESTION && qs == -1 then j else qs;
      BasicDecodes(required, s[1..], j + 1, q);
      DecodedLit(s[0], Basic(required, s[1..], j + 1, q).0);
      DecodedLit(s[0], BeforeFragment(s[1..]));
    } else if Escaped(s).Some? {
      var x := Escaped(s).value;
      assert f[3..] == BeforeFragment(s[3..]);
      if Decodes(required, qs >= 0, x) {
        BasicDecodes(required, s[3..], j + 1, qs);
        DecodedNotPercent(required, qs >= 0, x);
        DecodedLit(x, Basic(required, s[3..], j + 1, qs).0);
      } else {
        var q := if BadUtf8(x) then -2 else qs;
        BasicDecodes(required, s[3..], j + 3, q);
        DecodedEscape(x, Basic(required, s[3..], j + 3, q).0);
      }
    } else if s[0] != HASH {
      var q := if BadUtf8(s[0]) then -2 else qs;
      BasicDecodes(required, s[1..], j + 3, q);
      DecodedEscape(s[0], Basic(required, s[1..], j + 3, q).0);
      assert f[1..] == BeforeFragment(s[1..]);
    } else {
      assert f == [];
    }
  }

  lemma NoFragment()
    ensures BeforeFragment([]) == []
  {
  }

  lemma EscapedHead(s: Octets)
    ensures Escaped(s).Some? ==> |s| >= 3 && s[0] == PERCENT
    ensures Reqd(PERCENT) && Reqd(HASH)
  {
  }

  lemma DecodedNotPercent(required: bool, inQuery: bool, x: Byte)
    ensures Decodes(required, inQuery, x) ==> x != PERCENT
  {
  }

  // ---------------------------------------------------------------- the other passes

  const DIGIT2: Byte := 50
  const DIGIT0: Byte := 48
  const UPPER_F: Byte := 70

  /** Every "%", hi, lo becomes c, from the left. */
  function Replace(s: Octets, hi: Byte, lo: Byte, c: Byte): Octets
    decreases |s|
  {
    if s == [] then []
    else if |s| >= 3 && s[0] == PERCENT && s[1] == hi && s[2] == lo then [c] + Replace(s[3..], hi, lo, c)
    else [s[0]] + Replace(s[1..], hi, lo, c)
  }

  /** The escaped byte x becomes the literal c, and nothing else changes. */
  lemma {:induction false} ReplaceNormal(s: Octets, lits: set<Byte>, escs: set<Byte>, x: Byte, c: Byte)
    requires Normal(s, lits, escs) && PERCENT !in lits && c in lits
    ensures var t := Replace(s, HexUpper(x / 16), HexUpper(x % 16), c);
      Normal(t, lits, escs - {x}) && (x !in escs ==> t == s) && (s != [] && s[0] != PERCENT ==> t != [] && t[0] == s[0])
    decreases |s|
  {
    hide Normal;
    var hi, lo := HexUpper(x / 16), HexUpper(x % 16);
    NormalNone(lits, escs - {x});
    if s != [] {
      NormalHead(s, lits, escs);
      if s[0] == PERCENT {
        var y := Escaped(s).value;
        ReplaceNormal(s[3..], lits, escs, x, c);
        var t := Replace(s[3..], hi, lo, c);
        SameEscape(x, y, s[3..]);
        if y == x {
          NormalLit(c, t, lits, escs - {x});
        } else {
          ReplaceOther(s, hi, lo, c);
          NormalEscape(y, t, lits, escs - {x});
        }
      } else {
        ReplaceNormal(s[1..], lits, escs, x, c);
        NormalLit(s[0], Replace(s[1..], hi, lo, c), lits, escs - {x});
        assert [s[0]] + s[1..] == s;
      }
    }
  }

  lemma SameEscape(x: Byte, y: Byte, rest: Octets)
    ensures var s := Escape(y) + rest; s[1] == HexUpper(x / 16) && s[2] == HexUpper(x % 16) <==> x == y
  {
    var s := Escape(y) + rest;
    assert HexValue(HexUpper(x / 16)) == Some(x / 16) && HexValue(HexUpper(x % 16)) == Some(x % 16);
    assert HexValue(s[1]) == Some(y / 16) && HexValue(s[2]) == Some(y % 16);
  }

  /** An escape that is not the one looked for is passed over; its digits start no other. */
  lemma ReplaceOther(s: Octets, hi: Byte, lo: Byte, c: Byte)
    requires Escaped(s).Some? && !(s[1] == hi && s[2] == lo)
    ensures Replace(s, hi, lo, c) == s[..3] + Replace(s[3..], hi, lo, c)
  {
    assert s[1..][1..] == s[2..] && s[2..][1..] == s[3..];
    assert Replace(s[2..], hi, lo, c) == [s[2]] + Replace(s[3..], hi, lo, c);
    assert Replace(s[1..], hi, lo, c) == [s[1]] + Replace(s[2..], hi, lo, c);
  }

  /** A byte that the control check of burl_contains_ctrls finds; char is signed. */
  predicate CtrlAt(s: Octets, i: nat)
    requires i < |s|
  {
    s[i] == PERCENT && (At(s, i + 1) < DIGIT2 || At(s, i + 1) >= 128 || (At(s, i + 1) == 55 && At(s, i + 2) == UPPER_F))
  }

  predicate HasCtrl(s: Octets) { exists i: nat :: i < |s| && CtrlAt(s, i) }

  predicate Ctrl(x: Byte) { x < 32 || x == 127 }

  function Ctrls(): set<Byte> { set x: Byte | 0 <= x < 256 && Ctrl(x) }

  lemma HasCtrlHead(s: Octets)
    requires s != []
    ensures HasCtrl(s) <==> CtrlAt(s, 0) || HasCtrl(s[1..])
  {
    assert forall i: nat :: i < |s| - 1 ==> (CtrlAt(s[1..], i) <==> CtrlAt(s, i + 1));
    if HasCtrl(s) {
      var i: nat :| i < |s| && CtrlAt(s, i);
      if i > 0 { assert CtrlAt(s[1..], i - 1); }
    }
    if HasCtrl(s[1..]) {
      var i: nat :| i < |s| - 1 && CtrlAt(s[1..], i);
      assert CtrlAt(s, i + 1);
    }
  }

  lemma HasCtrlEscape(x: Byte, t: Octets)
    ensures HasCtrl(Escape(x) + t) <==> Ctrl(x) || HasCtrl(t)
  {
    var s := Escape(x) + t;
    assert HexValue(s[1]) == Some(x / 16) && HexValue(s[2]) == Some(x % 16) && At(s, 1) == s[1] && At(s, 2) == s[2];
    assert CtrlAt(s, 0) <==> Ctrl(x);
    HasCtrlHead(s);
    HasCtrlHead(s[1..]);
    HasCtrlHead(s[2..]);
    assert s[1..][1..] == s[2..] && s[2..][1..] == t;
    assert s[1..][0] == s[1] && s[2..][0] == s[2];
  }

  /** The check finds exactly the escaped control characters of a normal text, whatever follows it. */
  lemma {:induction false} CtrlNormal(s: Octets, rest: Octets, lits: set<Byte>, escs: set<Byte>)
    requires Normal(s, lits, escs) && PERCENT !in lits
    ensures HasCtrl(s + rest) <==> !Normal(s, lits, escs - Ctrls()) || HasCtrl(rest)
    decreases |s|
  {
    hide Normal, HasCtrl, Ctrl, Escape;
    NormalNone(lits, escs - Ctrls());
    if s == [] { assert s + rest == rest; return; }
    NormalHead(s, lits, escs);
    NormalTail(s, lits, escs - Ctrls());
    if s[0] == PERCENT {
      var x := Escaped(s).value;
      CtrlNormal(s[3..], rest, lits, escs);
      HasCtrlEscape(x, s[3..] + rest);
      assert s + rest == Escape(x) + (s[3..] + rest);
    } else {
      CtrlNormal(s[1..], rest, lits, escs);
      HasCtrlHead(s + rest);
      assert (s + rest)[1..] == s[1..] + rest;
    }
  }

  lemma NormalTail(s: Octets, lits: set<Byte>, escs: set<Byte>)
    requires s != [] && PERCENT !in lits
    ensures s[0] == PERCENT && Escaped(s).Some? && s[..3] == Escape(Escaped(s).value) ==>
      (Normal(s, lits, escs) <==> Escaped(s).value in escs && Normal(s[3..], lits, escs))
    ensures s[0] == PERCENT && Escaped(s).Some? ==> s == s[..3] + s[3..]
    ensures s[0] != PERCENT ==> (Normal(s, lits, escs) <==> s[0] in lits && Normal(s[1..], lits, escs))
  {
  }

  // ---------------------------------------------------------------- dot segments of normal paths

  lemma {:induction false} NormalConcat(a: Octets, b: Octets, lits: set<Byte>, escs: set<Byte>)
    requires Normal(a, lits, escs) && Normal(b, lits, escs) && PERCENT !in lits
    ensures Normal(a + b, lits, escs)
    decreases |a|
  {
    hide Normal;
    if a == [] { assert a + b == b; return; }
    NormalHead(a, lits, escs);
    if a[0] == PERCENT {
      NormalConcat(a[3..], b, lits, escs);
      NormalEscape(Escaped(a).value, a[3..] + b, lits, escs);
      assert a + b == Escape(Escaped(a).value) + (a[3..] + b);
    } else {
      NormalConcat(a[1..], b, lits, escs);
      NormalLit(a[0], a[1..] + b, lits, escs);
      assert a + b == [a[0]] + (a[1..] + b);
    }
  }

  /** A slash is never inside an escape. */
  lemma {:induction false} NormalSplit(s: Octets, k: nat, lits: set<Byte>, escs: set<Byte>)
    requires Normal(s, lits, escs) && PERCENT !in lits && k <= |s| && (k < |s| ==> s[k] == SLASH)
    ensures Normal(s[..k], lits, escs) && Normal(s[k..], lits, escs)
    decreases |s|
  {
    hide Normal;
    NormalNone(lits, escs);
    if k == 0 { assert s[..0] == [] && s[0..] == s; return; }
    NormalHead(s, lits, escs);
    if s[0] == PERCENT {
      assert k >= 3;
      NormalSplit(s[3..], k - 3, lits, escs);
      NormalEscape(Escaped(s).value, s[3..][..k - 3], lits, escs);
      assert s[..k] == Escape(Escaped(s).value) + s[3..][..k - 3] && s[k..] == s[3..][k - 3..];
    } else {
      NormalSplit(s[1..], k - 1, lits, escs);
      NormalLit(s[0], s[1..][..k - 1], lits, escs);
      assert s[..k] == [s[0]] + s[1..][..k - 1] && s[k..] == s[1..][k - 1..];
    }
  }

  lemma {:induction false} JoinNormal(stack: seq<Octets>, lits: set<Byte>, escs: set<Byte>)
    requires (forall seg :: seg in stack ==> Normal(seg, lits, escs)) && SLASH in lits && PERCENT !in lits
    ensures Normal(Join(stack), lits, escs)
  {
    hide Normal;
    NormalNone(lits, escs);
    if stack != [] {
      var init, seg := stack[..|stack| - 1], stack[|stack| - 1];
      JoinNormal(init, lits, escs);
      NormalLit(SLASH, seg, lits, escs);
      NormalConcat(Join(init), [SLASH] + seg, lits, escs);
      assert Join(stack) == Join(init) + ([SLASH] + seg);
    }
  }

  lemma {:induction false} ResolveNormal(stack: seq<Octets>, rest: Octets, lits: set<Byte>, escs: set<Byte>)
    requires (forall seg :: seg in stack ==> Normal(seg, lits, escs)) && SLASH in lits && PERCENT !in lits
    requires (rest == [] || IsPath(rest)) && Normal(rest, lits, escs)
    ensures Normal(Resolve(stack, rest), lits, escs)
    decreases |rest|
  {
    hide Normal;
    JoinNormal(stack, lits, escs);
    if rest != [] {
      var seg, after := Segment(rest[1..]), After(rest);
      NormalHead(rest, lits, escs);
      NormalSplit(rest[1..], |seg|, lits, escs);
      assert rest[1..] == seg + after;
      var next := Apply(stack, seg);
      JoinNormal(next, lits, escs);
      NormalNone(lits, escs);
      NormalLit(SLASH, [], lits, escs);
      assert [SLASH] + [] == [SLASH];
      NormalConcat(Join(next), [SLASH], lits, escs);
      ResolveNormal(next, after, lits, escs);
    }
  }

  // ---------------------------------------------------------------- the whole

  /** The path part of a target whose query starts at qs. */
  function PathLength(s: Octets, qs: int): nat
    requires qs < |s|
  {
    if qs < 0 then |s| else qs
  }

  /** burl_normalize_2F_to_slash */
  function SlashPass(s: Octets, qs: int, flags: Flags): (Octets, int)
    requires qs < |s|
  {
    var k := PathLength(s, qs);
    var p := Replace(s[..k], DIGIT2, UPPER_F, SLASH);
    if p == s[..k] then (s, qs)
    else if flags.slashDecode then (p + s[k..], if qs < 0 then qs else |p|)
    else (s, -2)
  }

  /** burl_normalize_path */
  function PathPass(s: Octets, qs: int, flags: Flags): (Octets, int)
    requires qs < |s|
  {
    var k := PathLength(s, qs);
    if !ScanFinds(s[..k]) then (s, qs)
    else if flags.dotReject then (s, -2)
    else
      var p := SimplifyText(Stripped(s[..k]));
      (p + s[k..], if qs < 0 then qs else |p|)
  }

  /** On a path that starts with a slash the pass is its simplification. */
  lemma PathPassIs(s: Octets, qs: int, flags: Flags)
    requires qs < |s| && IsPath(s[..PathLength(s, qs)])
    ensures var k := PathLength(s, qs); var p := Simplify(s[..k]);
      PathPass(s, qs, flags) ==
        if p == s[..k] then (s, qs) else if flags.dotReject then (s, -2) else (p + s[k..], if qs < 0 then qs else |p|)
  {
    ScanExact(s[..PathLength(s, qs)]);
  }

  /** burl_normalize_qs20_to_plus */
  function PlusPass(s: Octets, qs: int): Octets
    requires qs < |s|
  {
    if qs < 0 then s else s[..qs + 1] + Replace(s[qs + 1..], DIGIT2, DIGIT0, PLUS)
  }

  predicate Slashes(flags: Flags) { flags.slashDecode || flags.slashReject }
  predicate Dots(flags: Flags) { flags.dotRemove || flags.dotReject }

  function Minus(s: set<Byte>, cond: bool, gone: set<Byte>): set<Byte> { if cond then s - gone else s }

  /** The bytes that stay escaped in the path and in the query. */
  function PathEscs(flags: Flags): set<Byte> {
    Minus(Minus(Kept(flags.required, false), flags.ctrlsReject, Ctrls()), Slashes(flags), {SLASH})
  }

  function QueryEscs(flags: Flags): set<Byte> {
    Minus(Minus(Kept(flags.required, true), flags.ctrlsReject, Ctrls()), flags.queryPlus, {SP})
  }

  /** An accepted pass leaves the query, if any, inside the text, and a leading slash in place. */
  lemma BasicShape(required: bool, s: Octets)
    ensures var (t, q) := Basic(required, s, 0, -1);
      q != -2 ==> -1 <= q < |t| && (IsPath(s) ==> IsPath(t[..PathLength(t, q)]))
  {
    if Basic(required, s, 0, -1).1 != -2 {
      var k := BasicNormal(required, s, 0);
    }
  }

  lemma SlashShape(s: Octets, qs: int, flags: Flags)
    requires -1 <= qs < |s|
    ensures var (t, q) := SlashPass(s, qs, flags);
      q != -2 ==> -1 <= q < |t| && (IsPath(s[..PathLength(s, qs)]) ==> IsPath(t[..PathLength(t, q)]))
  {
    var k := PathLength(s, qs);
    var p := Replace(s[..k], DIGIT2, UPPER_F, SLASH);
    assert (p + s[k..])[..|p|] == p;
  }

  /** burl_normalize, with -2 for a refused target */
  function Normalize(s: Octets, flags: Flags): (Octets, int) {
    BasicShape(flags.required, s);
    var (s1, q1) := Basic(flags.required, s, 0, -1);
    if q1 == -2 || (flags.ctrlsReject && HasCtrl(s1)) then (s1, -2)
    else
      SlashShape(s1, q1, flags);
      var (s2, q2) := if Slashes(flags) then SlashPass(s1, q1, flags) else (s1, q1);
      if q2 == -2 then (s2, -2)
      else
        PathShape(s2, q2, flags);
        var (s3, q3) := if Dots(flags) then PathPass(s2, q2, flags) else (s2, q2);
        if q3 == -2 then (s3, -2)
        else (if flags.queryPlus then PlusPass(s3, q3) else s3, q3)
  }

  lemma PathShape(s: Octets, qs: int, flags: Flags)
    requires -1 <= qs < |s|
    ensures var (t, q) := PathPass(s, qs, flags); q != -2 ==> -1 <= q < |t|
  {
  }

  /** A target in final form, with a path of k bytes. */
  predicate Stable(flags: Flags, s: Octets, k: nat) {
    NormalUrl(s, k, PathEscs(flags), QueryEscs(flags)) && (Dots(flags) ==> IsPath(s[..k]) && Simplify(s[..k]) == s[..k])
  }

  lemma {:induction false} NormalMore(s: Octets, lits: set<Byte>, escs: set<Byte>, more: set<Byte>)
    requires Normal(s, lits, escs) && escs <= more
    ensures Normal(s, lits, more)
    decreases |s|
  {
    if s != [] {
      if s[0] == PERCENT { NormalMore(s[3..], lits, escs, more); } else { NormalMore(s[1..], lits, escs, more); }
    }
  }

  lemma UrlMore(s: Octets, k: nat, pe: set<Byte>, qe: set<Byte>, pe': set<Byte>, qe': set<Byte>)
    requires NormalUrl(s, k, pe, qe) && pe <= pe' && qe <= qe'
    ensures NormalUrl(s, k, pe', qe')
  {
    NormalMore(s[..k], PathLits(), pe, pe');
    NormalMore(s[k..], QueryLits(), qe, qe');
  }

  lemma LitFacts()
    ensures PERCENT !in PathLits() && PERCENT !in QueryLits() && SLASH in PathLits() && PLUS in QueryLits()
    ensures HexUpper(SLASH / 16) == DIGIT2 && HexUpper(SLASH % 16) == UPPER_F
    ensures HexUpper(SP / 16) == DIGIT2 && HexUpper(SP % 16) == DIGIT0
  {
  }

  lemma CtrlUrl(s: Octets, k: nat, pe: set<Byte>, qe: set<Byte>)
    requires NormalUrl(s, k, pe, qe)
    ensures !HasCtrl(s) <==> NormalUrl(s, k, pe - Ctrls(), qe - Ctrls())
  {
    hide Normal, PathLits, QueryLits, Ctrls;
    LitFacts();
    CtrlNormal(s[..k], s[k..], PathLits(), pe);
    CtrlNormal(s[k..], [], QueryLits(), qe);
    assert s[..k] + s[k..] == s && s[k..] + [] == s[k..];
  }

  lemma SlashUrl(s: Octets, k: nat, flags: Flags, pe: set<Byte>, qe: set<Byte>) returns (m: nat)
    requires NormalUrl(s, k, pe, qe) && Slashes(flags)
    ensures var (t, q) := SlashPass(s, QsOf(s, k), flags);
      q != -2 ==> NormalUrl(t, m, pe - {SLASH}, qe) && q == QsOf(t, m) && (IsPath(s[..k]) ==> IsPath(t[..m]))
    ensures SLASH !in pe ==> SlashPass(s, QsOf(s, k), flags) == (s, QsOf(s, k))
  {
    hide Normal, PathLits, QueryLits, HexUpper;
    LitFacts();
    ReplaceNormal(s[..k], PathLits(), pe, SLASH, SLASH);
    var p := Replace(s[..k], DIGIT2, UPPER_F, SLASH);
    m := |p|;
    var t := p + s[k..];
    assert t[..m] == p && t[m..] == s[k..];
    assert s == s[..k] + s[k..];
  }

  lemma PathUrl(s: Octets, k: nat, flags: Flags, pe: set<Byte>, qe: set<Byte>) returns (m: nat)
    requires NormalUrl(s, k, pe, qe) && Dots(flags) && IsPath(s[..k])
    ensures var (t, q) := PathPass(s, QsOf(s, k), flags);
      q != -2 ==> NormalUrl(t, m, pe, qe) && q == QsOf(t, m) && IsPath(t[..m]) && Simplify(t[..m]) == t[..m]
  {
    hide Normal, PathLits, QueryLits, Resolve;
    LitFacts();
    SimplifyTwice(s[..k]);
    AtUrl(s, k, pe, qe);
    PathPassIs(s, QsOf(s, k), flags);
    ResolveNormal([], s[..k], PathLits(), pe);
    var p := Simplify(s[..k]);
    m := |p|;
    var t := p + s[k..];
    assert t[..m] == p && t[m..] == s[k..];
    assert s == s[..k] + s[k..];
  }

  lemma PlusUrl(s: Octets, k: nat, pe: set<Byte>, qe: set<Byte>)
    requires NormalUrl(s, k, pe, qe)
    ensures var t := PlusPass(s, QsOf(s, k)); NormalUrl(t, k, pe, qe - {SP}) && QsOf(t, k) == QsOf(s, k) && t[..k] == s[..k]
    ensures SP !in qe ==> PlusPass(s, QsOf(s, k)) == s
  {
    hide Normal, PathLits, QueryLits, HexUpper, Replace;
    LitFacts();
    NormalNone(QueryLits(), qe - {SP});
    if k < |s| {
      var query := s[k..];
      ReplaceNormal(query, QueryLits(), qe, SP, PLUS);
      ReplaceBehind(s, k, Replace(query[1..], DIGIT2, DIGIT0, PLUS));
      ReplaceQuestion(query);
    } else {
      assert s[k..] == [];
    }
  }

  lemma ReplaceQuestion(query: Octets)
    requires query != [] && query[0] == QUESTION
    ensures Replace(query, DIGIT2, DIGIT0, PLUS) == [QUESTION] + Replace(query[1..], DIGIT2, DIGIT0, PLUS)
  {
  }

  lemma ReplaceBehind(s: Octets, k: nat, r: Octets)
    requires k < |s|
    ensures s[k..][1..] == s[k + 1..] && s == s[..k] + s[k..]
    ensures var t := s[..k + 1] + r; t == s[..k] + ([s[k]] + r) && t[..k] == s[..k] && t[k..] == [s[k]] + r && k < |t| && t[k] == s[k]
  {
  }

  /** An accepted target comes out in final form. */
  lemma NormalizeStable(s: Octets, flags: Flags) returns (k: nat)
    requires (Dots(flags) ==> IsPath(s)) && Normalize(s, flags).1 != -2
    ensures var (t, q) := Normalize(s, flags); Stable(flags, t, k) && q == QsOf(t, k)
  {
    hide Basic, NormalUrl, HasCtrl, SlashPass, PathPass, PlusPass, Kept, Ctrls, IsPath, Simplify, ScanFinds;
    var pe, qe := Kept(flags.required, false), Kept(flags.required, true);
    var (s1, q1) := Basic(flags.required, s, 0, -1);
    BasicShape(flags.required, s);
    k := BasicNormal(flags.required, s, 0);
    AtUrl(s1, k, pe, qe);
    if flags.ctrlsReject {
      CtrlUrl(s1, k, pe, qe);
      pe, qe := pe - Ctrls(), qe - Ctrls();
    }
    SlashShape(s1, q1, flags);
    var s2, q2 := s1, q1;
    if Slashes(flags) {
      s2, q2 := SlashPass(s1, q1, flags).0, SlashPass(s1, q1, flags).1;
      k := SlashUrl(s1, k, flags, pe, qe);
      pe := pe - {SLASH};
    }
    AtUrl(s2, k, pe, qe);
    PathShape(s2, q2, flags);
    var s3, q3 := s2, q2;
    if Dots(flags) {
      s3, q3 := PathPass(s2, q2, flags).0, PathPass(s2, q2, flags).1;
      k := PathUrl(s2, k, flags, pe, qe);
    }
    if flags.queryPlus { PlusUrl(s3, k, pe, qe); }
  }

  lemma AtUrl(s: Octets, k: nat, pe: set<Byte>, qe: set<Byte>)
    requires NormalUrl(s, k, pe, qe)
    ensures k <= |s| && PathLength(s, QsOf(s, k)) == k && -1 <= QsOf(s, k)
    ensures s != [] ==> QsOf(s, k) < |s|
  {
  }

  /** A target in final form is accepted and left alone. */
  lemma StableFixed(s: Octets, flags: Flags, k: nat)
    requires Stable(flags, s, k) && (Dots(flags) ==> IsPath(s))
    ensures Normalize(s, flags) == (s, QsOf(s, k))
  {
    hide Basic, NormalUrl, HasCtrl, SlashPass, PathPass, PlusPass, Kept, Ctrls, IsPath, Simplify, ScanFinds;
    var pe, qe := PathEscs(flags), QueryEscs(flags);
    UrlMore(s, k, pe, qe, Kept(flags.required, false), Kept(flags.required, true));
    BasicFixed(flags.required, s, k, 0);
    BasicShape(flags.required, s);
    AtUrl(s, k, pe, qe);
    if flags.ctrlsReject {
      CtrlUrl(s, k, pe, qe);
      assert pe - Ctrls() == pe && qe - Ctrls() == qe;
    }
    var q := QsOf(s, k);
    SlashShape(s, q, flags);
    if Slashes(flags) { var m := SlashUrl(s, k, flags, pe, qe); }
    PathShape(s, q, flags);
    if Dots(flags) { SimplePath(s, k, flags); }
    if flags.queryPlus { PlusUrl(s, k, pe, qe); }
  }

  lemma SimplePath(s: Octets, k: nat, flags: Flags)
    requires k <= |s| && IsPath(s[..k]) && Simplify(s[..k]) == s[..k] && s != []
    ensures PathPass(s, QsOf(s, k), flags) == (s, QsOf(s, k))
  {
    ScanExact(s[..k]);
  }

  /** Normalising an accepted target again changes neither the text nor the return value. */
  lemma Idempotent(s: Octets, flags: Flags)
    requires Dots(flags) ==> IsPath(s)
    ensures var (t, q) := Normalize(s, flags);
      q != -2 ==> (Dots(flags) ==> IsPath(t)) && Normalize(t, flags) == (t, q)
  {
    var (t, q) := Normalize(s, flags);
    if q != -2 {
      var k := NormalizeStable(s, flags);
      StableFixed(t, flags, k);
    }
  }

  // ---------------------------------------------------------------- in place

  class Buffer {
    var s: Octets

    constructor (s: Octets)
      ensures this.s == s
    {
      this.s := s;
    }

    /** burl_normalize_basic_required_fix and _unreserved_fix: from i on the text is rewritten into a second
        buffer, which replaces this one. */
    method BasicFix(required: bool, i0: nat, qs0: int) returns (qs: int)
      requires i0 <= |s|
      modifies this
      ensures var r := Basic(required, old(s)[i0..], i0, qs0); s == old(s)[..i0] + r.0 && qs == r.1
    {
      hide Decodes, Escape, Escaped, Reqd, BadUtf8, Basic;
      var i, p := i0, s[..i0];
      qs := qs0;
      ghost var goal := Basic(required, s[i0..], i0, qs0);
      while i < |s|
        invariant i0 <= i <= |s| && s == old(s)
        invariant s[..i0] + goal.0 == p + Basic(required, s[i..], |p|, qs).0 && goal.1 == Basic(required, s[i..], |p|, qs).1
        decreases |s| - i
      {
        BasicStep(required, s[i..], |p|, qs, p);
        Further(s, i);
        var x := Escaped(s[i..]);
        EscapedHead(s[i..]);
        if !Reqd(s[i]) {
          if s[i] == QUESTION && qs == -1 { qs := |p|; }
          p := p + [s[i]];
          i := i + 1;
        } else if x.Some? {
          if Decodes(required, qs >= 0, x.value) {
            p := p + [x.value];
          } else {
            p := p + Escape(x.value);
            if BadUtf8(x.value) { qs := -2; }
          }
          i := i + 3;
        } else if s[i] == HASH {
          break;
        } else {
          p := p + Escape(s[i]);
          if BadUtf8(s[i]) { qs := -2; }
          i := i + 1;
        }
      }
      BasicStep(required, s[i..], |p|, qs, p);
      s := p;
    }

    /** burl_normalize_basic_required and _unreserved: as long as nothing changes length the text is only
        scanned, its escapes upper-cased in place; the result is that of rewriting it from the start. */
    method BasicScan(required: bool) returns (qs: int)
      modifies this
      ensures (s, qs) == Basic(required, old(s), 0, -1)
    {
      hide Decodes, Escape, Escaped, Reqd, BadUtf8, Basic;
      var i := 0;
      qs := -1;
      ghost var was := s;
      assert was[0..] == was && s[..0] == [];
      assert [] + Basic(required, was, 0, -1).0 == Basic(required, was, 0, -1).0;
      while i < |s|
        invariant i <= |s| == |was| && s[i..] == was[i..]
        invariant Basic(required, was, 0, -1) == (s[..i] + Basic(required, was[i..], i, qs).0, Basic(required, was[i..], i, qs).1)
        decreases |s| - i
      {
        BasicStep(required, was[i..], i, qs, s[..i]);
        Further(was, i);
        EscapedHead(was[i..]);
        var x := Escaped(s[i..]);
        if !Reqd(s[i]) {
          if s[i] == QUESTION && qs == -1 { qs := i; }
          assert s[..i + 1] == s[..i] + [s[i]];
          i := i + 1;
        } else if x.Some? && !Decodes(required, qs >= 0, x.value) {
          if BadUtf8(x.value) { qs := -2; }
          UpperCase(i, x.value);
          i := i + 3;
        } else if s[i] == HASH {
          s := s[..i];
          assert Basic(required, was, 0, -1).0 == s + [] == s;
          return;
        } else {
          qs := BasicFix(required, i, qs);
          return;
        }
      }
      BasicStep(required, was[i..], i, qs, s[..i]);
      assert s[..i] == s;
    }

    /** The digits of the escape at i are put in upper case. */
    method UpperCase(i: nat, ghost x: Byte)
      requires i < |s| && Escaped(s[i..]) == Some(x)
      modifies this
      ensures |s| == |old(s)| && i + 3 <= |s| && s[..i + 3] == old(s[..i]) + Escape(x) && s[i + 3..] == old(s[i + 3..])
    {
      hide Escaped, Escape;
      UpperEscape(s, i, x);
      ghost var was := s;
      if s[i + 1] >= 97 { s := s[i + 1 := s[i + 1] - 32]; }
      if s[i + 2] >= 97 { s := s[i + 2 := s[i + 2] - 32]; }
      assert s == was[..i] + Escape(x) + was[i + 3..];
    }

    /** burl_contains_ctrls */
    method ContainsCtrls() returns (r: bool)
      ensures r <==> HasCtrl(s)
    {
      for i := 0 to |s|
        invariant forall k: nat :: k < i ==> !CtrlAt(s, k)
      {
        if CtrlAt(s, i) { return true; }
      }
      r := false;
    }

    /** The scan of the two replacing passes: the first occurrence. */
    method Seek(from: nat, used: nat, hi: Byte, lo: Byte, c: Byte) returns (i: nat)
      requires from <= used <= |s| && (used < |s| ==> s[used] == QUESTION) && hi != QUESTION && lo != QUESTION && hi != NUL && lo != NUL
      ensures from <= i <= used && Replace(s[from..used], hi, lo, c) == s[from..i] + Replace(s[i..used], hi, lo, c)
      ensures i < used ==> i + 3 <= used && s[i] == PERCENT && s[i + 1] == hi && s[i + 2] == lo
    {
      hide Replace;
      i := from;
      assert s[from..from] == [] && [] + Replace(s[from..used], hi, lo, c) == Replace(s[from..used], hi, lo, c);
      while i < used
        invariant from <= i <= used && Replace(s[from..used], hi, lo, c) == s[from..i] + Replace(s[i..used], hi, lo, c)
      {
        ReplaceStep(s, i, used, hi, lo, c);
        if At(s, i) == PERCENT && At(s, i + 1) == hi && At(s, i + 2) == lo { return; }
        OneMore(s, from, i, Replace(s[i + 1..used], hi, lo, c));
        i := i + 1;
      }
    }

    /** The fix-up of the two replacing passes: from i0 to used the text is rewritten in place up to j. */
    method ReplaceFrom(i0: nat, used: nat, hi: Byte, lo: Byte, c: Byte) returns (j: nat)
      requires i0 <= used <= |s| && (used < |s| ==> s[used] == QUESTION) && hi != QUESTION && lo != QUESTION && hi != NUL && lo != NUL
      modifies this
      ensures |s| == |old(s)| && i0 <= j <= used && s[..j] == old(s)[..i0] + Replace(old(s)[i0..used], hi, lo, c)
      ensures s[used..] == old(s)[used..]
    {
      hide Replace;
      var i := i0;
      j := i0;
      ghost var was := s;
      while i < used
        invariant i0 <= j <= i <= used <= |s| == |was| && s[i..] == was[i..]
        invariant was[..i0] + Replace(was[i0..used], hi, lo, c) == s[..j] + Replace(was[i..used], hi, lo, c)
      {
        ReplaceStep(was, i, used, hi, lo, c);
        SameTail(s, was, i);
        var found := At(s, i) == PERCENT && At(s, i + 1) == hi && At(s, i + 2) == lo;
        ghost var rest := Replace(was[(if found then i + 3 else i + 1)..used], hi, lo, c);
        var put := if found then c else s[i];
        Put(s, was, i, j, put, if found then i + 3 else i + 1, rest);
        s := s[j := put];
        j := j + 1;
        i := if found then i + 3 else i + 1;
      }
      ReplaceNone(hi, lo, c);
      assert was[used..used] == [] && s[..j] + [] == s[..j];
    }

    /** burl_normalize_2F_to_slash */
    method TwoFToSlash(qs0: int, flags: Flags, ghost k: nat) returns (qs: int)
      requires k <= |s| && qs0 == QsOf(s, k) && (k < |s| ==> s[k] == QUESTION) && Slashes(flags)
      modifies this
      ensures (s, qs) == SlashPass(old(s), qs0, flags) || (qs == SlashPass(old(s), qs0, flags).1 == -2)
    {
      var used := if qs0 < 0 then |s| else qs0;
      var i := Seek(0, used, DIGIT2, UPPER_F, SLASH);
      ghost var was := s;
      WholePath(was, used);
      if i == used {
        assert was[..used] + [] == was[..used];
        return qs0;
      }
      ReplaceShorter(was[i..used], DIGIT2, UPPER_F, SLASH);
      ReplaceShort(was[i..used], DIGIT2, UPPER_F, SLASH);
      if !flags.slashDecode { return -2; }
      var j := ReplaceFrom(i, used, DIGIT2, UPPER_F, SLASH);
      ghost var p := Replace(was[..used], DIGIT2, UPPER_F, SLASH);
      qs := qs0;
      if qs0 >= 0 {
        s := s[..j] + s[used..];
        qs := j;
      } else {
        s := s[..j];
        assert was[used..] == [] && p + [] == p;
      }
    }

    /** burl_normalize_path */
    method NormalizePath(qs0: int, flags: Flags, ghost k: nat, ghost pe: set<Byte>, ghost qe: set<Byte>) returns (qs: int)
      requires NormalUrl(s, k, pe, qe) && qs0 == QsOf(s, k)
      modifies this
      ensures (s, qs) == PathPass(old(s), qs0, flags) || (qs == PathPass(old(s), qs0, flags).1 == -2)
    {
      var len := if qs0 < 0 then |s| else qs0;
      PathBytes(s[..k], pe);
      var simplify := NeedsSimplify(s, len);
      if !simplify { return qs0; }
      if flags.dotReject { return -2; }
      var query := s[len..];
      var path := SimplifyPath(s[..len]);
      qs := if qs0 >= 0 then |path| else qs0;
      s := path + query;
    }

    /** burl_normalize_qs20_to_plus */
    method Qs20ToPlus(qs: int)
      requires -1 <= qs < |s|
      modifies this
      ensures s == PlusPass(old(s), qs)
    {
      if qs < 0 { return; }
      hide Replace;
      ghost var was := s;
      var i := Seek(qs + 1, |s|, DIGIT2, DIGIT0, PLUS);
      ghost var rest := Replace(was[i..|was|], DIGIT2, DIGIT0, PLUS);
      PlusParts(was, qs + 1, i, rest);
      if i != |s| {
        var j := ReplaceFrom(i, |s|, DIGIT2, DIGIT0, PLUS);
        s := s[..j];
      } else {
        ReplaceNone(DIGIT2, DIGIT0, PLUS);
      }
    }

    /** burl_normalize */
    method NormalizeUrl(flags: Flags) returns (qs: int)
      modifies this
      ensures var r := Normalize(old(s), flags); qs == r.1 && (qs != -2 ==> s == r.0)
    {
      hide Basic, NormalUrl, HasCtrl, SlashPass, PathPass, PlusPass, Kept, Ctrls, IsPath, Simplify, ScanFinds;
      ghost var pe, qe := Kept(flags.required, false), Kept(flags.required, true);
      BasicShape(flags.required, s);
      ghost var was := s;
      qs := BasicScan(flags.required);
      if qs == -2 { return; }
      ghost var k := BasicNormal(flags.required, was, 0);
      AtUrl(s, k, pe, qe);
      if flags.ctrlsReject {
        var ctrl := ContainsCtrls();
        if ctrl { return -2; }
      }
      SlashShape(s, qs, flags);
      ghost var s1 := s;
      if Slashes(flags) {
        UrlPath(s, k, pe, qe);
        qs := TwoFToSlash(qs, flags, k);
        if qs == -2 { return; }
        k := SlashUrl(s1, k, flags, pe, qe);
        UrlMore(s, k, pe - {SLASH}, qe, pe, qe);
      }
      AtUrl(s, k, pe, qe);
      PathShape(s, qs, flags);
      ghost var s2 := s;
      if Dots(flags) {
        qs := NormalizePath(qs, flags, k, pe, qe);
        if qs == -2 { return; }
      }
      if flags.queryPlus && qs >= 0 { Qs20ToPlus(qs); }
      NoQuery(s, qs);
    }
  }

  lemma UrlPath(s: Octets, k: nat, pe: set<Byte>, qe: set<Byte>)
    requires NormalUrl(s, k, pe, qe)
    ensures k <= |s| && (k < |s| ==> s[k] == QUESTION)
  {
  }

  lemma NoQuery(s: Octets, qs: int)
    ensures qs < 0 ==> PlusPass(s, qs) == s
  {
  }

  lemma WholePath(s: Octets, used: nat)
    requires used <= |s|
    ensures s[0..used] == s[..used] && s == s[..used] + s[used..]
  {
  }

  lemma PlusParts(s: Octets, from: nat, i: nat, rest: Octets)
    requires from <= i <= |s|
    ensures s[from..] == s[from..|s|] && s[..i] + rest == s[..from] + (s[from..i] + rest)
    ensures i == |s| ==> s[..i] + [] == s && s[i..|s|] == []
  {
  }

  lemma ReplaceNone(hi: Byte, lo: Byte, c: Byte)
    ensures Replace([], hi, lo, c) == []
  {
  }

  lemma OneMore(s: Octets, from: nat, i: nat, rest: Octets)
    requires from <= i < |s|
    ensures s[from..i] + ([s[i]] + rest) == s[from..i + 1] + rest
  {
  }

  lemma Put(s: Octets, was: Octets, i: nat, j: nat, c: Byte, next: nat, rest: Octets)
    requires j <= i < next <= |s| == |was| && s[i..] == was[i..]
    ensures var t := s[j := c]; t[next..] == was[next..] && t[..j + 1] + rest == s[..j] + ([c] + rest)
  {
    SameTail(s, was, i);
  }

  lemma SameTail(s: Octets, t: Octets, i: nat)
    requires i <= |s| == |t| && s[i..] == t[i..]
    ensures forall n :: i <= n < |s| ==> s[n] == t[n]
  {
    forall n | i <= n < |s| ensures s[n] == t[n] { assert s[i..][n - i] == t[i..][n - i]; }
  }

  /** One step of the replacement, at i in a text that ends at used. */
  lemma ReplaceStep(s: Octets, i: nat, used: nat, hi: Byte, lo: Byte, c: Byte)
    requires i < used <= |s| && (used < |s| ==> s[used] == QUESTION) && hi != QUESTION && lo != QUESTION && hi != NUL && lo != NUL
    ensures var found := At(s, i) == PERCENT && At(s, i + 1) == hi && At(s, i + 2) == lo;
      && (found ==> i + 3 <= used && Replace(s[i..used], hi, lo, c) == [c] + Replace(s[i + 3..used], hi, lo, c))
      && (!found ==> Replace(s[i..used], hi, lo, c) == [s[i]] + Replace(s[i + 1..used], hi, lo, c))
  {
    var t := s[i..used];
    assert t[1..] == s[i + 1..used];
    if i + 3 <= used { assert t[1] == s[i + 1] && t[2] == s[i + 2] && t[3..] == s[i + 3..used]; }
  }

  lemma {:induction false} ReplaceShorter(s: Octets, hi: Byte, lo: Byte, c: Byte)
    ensures |Replace(s, hi, lo, c)| <= |s|
    decreases |s|
  {
    if s != [] {
      ReplaceShorter(s[1..], hi, lo, c);
      if |s| >= 3 { ReplaceShorter(s[3..], hi, lo, c); }
    }
  }

  lemma ReplaceShort(s: Octets, hi: Byte, lo: Byte, c: Byte)
    requires |s| >= 3 && s[0] == PERCENT && s[1] == hi && s[2] == lo
    ensures |Replace(s, hi, lo, c)| < |s|
  {
    ReplaceShorter(s[3..], hi, lo, c);
  }

  /** Neither a "?" nor a zero byte is in a normal path. */
  lemma {:induction false} PathBytes(p: Octets, escs: set<Byte>)
    requires Normal(p, PathLits(), escs)
    ensures QUESTION !in p && NUL !in p
    decreases |p|
  {
    if p != [] {
      if p[0] == PERCENT {
        PathBytes(p[3..], escs);
        assert p == [p[0], p[1], p[2]] + p[3..];
      } else {
        PathBytes(p[1..], escs);
      }
    }
  }

  /** The path is simplified in its buffer. */
  method SimplifyPath(p: Octets) returns (r: Octets)
    requires NUL !in p
    ensures r == SimplifyText(Stripped(p))
  {
    var b := new Byte[|p| + 1](i requires 0 <= i <= |p| => if i < |p| then p[i] else NUL);
    assert b[..|p|] == p;
    PlainCStringOf(p);
    var m := SimplifyInPlace(b, |p|);
    r := b[..m];
  }

  lemma PlainCStringOf(p: Octets)
    requires NUL !in p
    ensures CString(p) == p
  {
    FindAbsent(p, NUL);
  }

  /** One step of the pass, with p already written. */
  lemma BasicStep(required: bool, s: Octets, j: nat, qs: int, p: Octets)
    ensures var r := Basic(required, s, j, qs);
      if s == [] then r.1 == qs && p + r.0 == p
      else if !Reqd(s[0]) then
        var q := if s[0] == QUESTION && qs == -1 then j else qs;
        var n := Basic(required, s[1..], j + 1, q);
        p + r.0 == (p + [s[0]]) + n.0 && r.1 == n.1
      else if Escaped(s).Some? then
        var x := Escaped(s).value;
        if Decodes(required, qs >= 0, x) then
          var n := Basic(required, s[3..], j + 1, qs);
          p + r.0 == (p + [x]) + n.0 && r.1 == n.1
        else
          var n := Basic(required, s[3..], j + 3, if BadUtf8(x) then -2 else qs);
          p + r.0 == (p + Escape(x)) + n.0 && r.1 == n.1 && |Escape(x)| == 3
      else if s[0] == HASH then r == ([], qs) && p + r.0 == p
      else
        var n := Basic(required, s[1..], j + 3, if BadUtf8(s[0]) then -2 else qs);
        p + r.0 == (p + Escape(s[0])) + n.0 && r.1 == n.1 && |Escape(s[0])| == 3
  {
    hide Decodes, BadUtf8, Escape, Escaped, Reqd;
  }

  lemma Further(s: Octets, i: nat)
    requires i < |s|
    ensures s[i..][0] == s[i] && s[i..][1..] == s[i + 1..] && (i + 3 <= |s| ==> s[i..][3..] == s[i + 3..])
  {
  }
}
