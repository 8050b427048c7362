/** What an accepted target keeps: the bytes that its path stands for, up to dot segments, and those of its
    query, in which a plus sign stands for a space if spaces are written so. */
module BurlKept {
  import opened Bytes
  import opened PathSimplify
  import opened Burl
  import opened BurlRefused

  /** A literal byte; with plus, a plus sign is a space. */
  function Literal(c: Byte, plus: bool): Byte { if plus && c == Ascii("+")[0] then SP else c }

  /** The bytes that a percent-encoded text stands for. */
  function Meaning(s: Octets, plus: bool): Octets
    decreases |s|
  {
    if s == [] then []
    else if Escaped(s).Some? then [Escaped(s).value] + Meaning(s[3..], plus)
    else [Literal(s[0], plus)] + Meaning(s[1..], plus)
  }

  /** The query of a target, with its "?". */
  function QueryOf(s: Octets): Octets { BeforeFragment(s)[|PathOf(s)|..] }

  lemma {:induction false} MeaningDecoded(s: Octets)
    ensures Meaning(s, false) == Decoded(s)
    decreases |s|
  {
    hide Escaped;
    EscapedHead(s);
    if s != [] {
      MeaningDecoded(s[1..]);
      if Escaped(s).Some? { MeaningDecoded(s[3..]); }
    }
  }

  lemma MeansLit(c: Byte, t: Octets, plus: bool)
    requires c != PERCENT
    ensures Meaning([c] + t, plus) == [Literal(c, plus)] + Meaning(t, plus)
  {
    assert ([c] + t)[1..] == t;
  }

  lemma MeansEscape(e: Octets, t: Octets, plus: bool)
    requires |e| == 3 && Escaped(e).Some?
    ensures Meaning(e + t, plus) == [Escaped(e).value] + Meaning(t, plus)
  {
    assert (e + t)[3..] == t;
  }

  // ---------------------------------------------------------------- the replacing passes

  /** Replacing an escape by a literal that means the same keeps the meaning. */
  lemma {:induction false} ReplaceMeans(s: Octets, plus: bool, hi: Byte, lo: Byte, c: Byte)
    requires HexValue(hi).Some? && HexValue(lo).Some? && HexValue(c).None? && c != PERCENT
    requires Literal(c, plus) == 16 * HexValue(hi).value + HexValue(lo).value
    ensures Meaning(Replace(s, hi, lo, c), plus) == Meaning(s, plus)
    decreases |s|
  {
    hide Escaped, Literal, HexValue, Meaning;
    if s == [] { return; }
    EscapedHead(s);
    MeaningHead(s, plus);
    if Escaped(s).Some? {
      ReplaceMeans(s[3..], plus, hi, lo, c);
      var t := Replace(s[3..], hi, lo, c);
      EscapedIs(s);
      FirstEscape(s);
      if s[1] == hi && s[2] == lo {
        MeansLit(c, t, plus);
      } else {
        ReplaceOther(s, hi, lo, c);
        MeansEscape(s[..3], t, plus);
      }
    } else {
      NoEscape(s, hi, lo);
      ReplaceMeans(s[1..], plus, hi, lo, c);
      var t := Replace(s[1..], hi, lo, c);
      RawStays(s, hi, lo, c);
      assert ([s[0]] + t)[1..] == t;
      MeaningHead([s[0]] + t, plus);
    }
  }

  lemma MeaningHead(s: Octets, plus: bool)
    requires s != []
    ensures Meaning(s, plus) ==
      if Escaped(s).Some? then [Escaped(s).value] + Meaning(s[3..], plus) else [Literal(s[0], plus)] + Meaning(s[1..], plus)
  {
  }

  lemma EscapedIs(s: Octets)
    requires Escaped(s).Some?
    ensures HexValue(s[1]).Some? && HexValue(s[2]).Some? && Escaped(s).value == 16 * HexValue(s[1]).value + HexValue(s[2]).value
  {
  }

  lemma NoEscape(s: Octets, hi: Byte, lo: Byte)
    requires Escaped(s).None? && HexValue(hi).Some? && HexValue(lo).Some?
    ensures !(|s| >= 3 && s[0] == PERCENT && s[1] == hi && s[2] == lo)
  {
  }

  /** What starts no escape does not become one. */
  lemma RawStays(s: Octets, hi: Byte, lo: Byte, c: Byte)
    requires s != [] && Escaped(s).None? && HexValue(c).None?
    ensures Escaped([s[0]] + Replace(s[1..], hi, lo, c)).None?
  {
    var t := Replace(s[1..], hi, lo, c);
    if s[0] == PERCENT && |s| > 1 && HexValue(s[1]).Some? {
      assert t == [s[1]] + Replace(s[1..][1..], hi, lo, c);
      assert s[1..][1..] == s[2..];
      assert ([s[0]] + t)[2..] == Replace(s[2..], hi, lo, c);
    }
  }

  /** The slash pass keeps what the path stands for, the plus pass what the query does. */
  lemma PassesKeep(p: Octets)
    ensures Decoded(Replace(p, DIGIT2, UPPER_F, SLASH)) == Decoded(p)
    ensures Meaning(Replace(p, DIGIT2, DIGIT0, PLUS), true) == Meaning(p, true)
  {
    hide Replace, Meaning;
    MeaningDecoded(p);
    MeaningDecoded(Replace(p, DIGIT2, UPPER_F, SLASH));
    ReplaceMeans(p, false, DIGIT2, UPPER_F, SLASH);
    assert Ascii("+") == [PLUS];
    ReplaceMeans(p, true, DIGIT2, DIGIT0, PLUS);
  }

  // ---------------------------------------------------------------- the basic pass

  /** In the query, a plus sign stays a plus sign and none is made. */
  lemma {:induction false} QueryMeans(required: bool, s: Octets, j: nat, qs: nat, plus: bool)
    requires Basic(required, s, j, qs).1 != -2
    ensures Meaning(Basic(required, s, j, qs).0, plus) == Meaning(BeforeFragment(s), plus)
    decreases |s|
  {
    hide Escaped, Decodes, BeforeFragment, Escape, Reqd, Meaning, Literal;
    if s == [] {
      NoFragment();
      return;
    }
    FragmentHead(s);
    EscapedHead(s);
    var f := BeforeFragment(s);
    if !Reqd(s[0]) {
      QueryMeans(required, s[1..], j + 1, qs, plus);
      MeansLit(s[0], Basic(required, s[1..], j + 1, qs).0, plus);
      MeansLit(s[0], BeforeFragment(s[1..]), plus);
    } else if Escaped(s).Some? {
      var x := Escaped(s).value;
      assert f[3..] == BeforeFragment(s[3..]);
      MeaningHead(f, plus);
      if Decodes(required, true, x) {
        NoPlus(required, x, plus);
        QueryMeans(required, s[3..], j + 1, qs, plus);
        MeansLit(x, Basic(required, s[3..], j + 1, qs).0, plus);
      } else {
        if BadUtf8(x) { QsStays(required, s[3..], j + 3, -2); }
        QueryMeans(required, s[3..], j + 3, qs, plus);
        EscapeMeans(x, Basic(required, s[3..], j + 3, qs).0, plus);
      }
    } else if s[0] != HASH {
      if BadUtf8(s[0]) { QsStays(required, s[1..], j + 3, -2); }
      QueryMeans(required, s[1..], j + 3, qs, plus);
      EscapeMeans(s[0], Basic(required, s[1..], j + 3, qs).0, plus);
      RawMeans(s[0], plus);
      assert f[1..] == BeforeFragment(s[1..]);
      MeaningHead(f, plus);
    }
  }

  lemma NoPlus(required: bool, x: Byte, plus: bool)
    requires Decodes(required, true, x)
    ensures Literal(x, plus) == x && x != PERCENT
  {
    assert Ascii("+") == [PLUS];
  }

  lemma RawMeans(c: Byte, plus: bool)
    requires Reqd(c)
    ensures Literal(c, plus) == c
  {
    assert Ascii("+") == [PLUS];
  }

  lemma EscapeMeans(x: Byte, t: Octets, plus: bool)
    ensures Meaning(Escape(x) + t, plus) == [x] + Meaning(t, plus)
  {
    hide Meaning, Escape;
    EscapedEscape(x, t);
    EscapedEscape(x, []);
    assert Escape(x) + [] == Escape(x);
    MeansEscape(Escape(x), t, plus);
  }

  /** The part of a result from its query on. */
  function QueryPart(r: (Octets, int), j: nat): Octets { r.0[|PathPart(r, j)|..] }

  lemma QueryBehind(required: bool, s: Octets, j: nat, e: Octets, r: (Octets, int))
    requires Basic(required, s, j + |e|, -1).1 != -2
    requires var n := Basic(required, s, j + |e|, -1); r == (e + n.0, n.1)
    ensures QueryPart(r, j) == QueryPart(Basic(required, s, j + |e|, -1), j + |e|)
  {
    hide PathPart;
    PartHead(required, s, j, e, r);
    PartFits(Basic(required, s, j + |e|, -1), j + |e|);
  }

  lemma PartFits(r: (Octets, int), j: nat)
    ensures |PathPart(r, j)| <= |r.0|
  {
  }

  lemma QueryHead(s: Octets)
    requires s != []
    ensures s[0] == HASH ==> QueryOf(s) == []
    ensures s[0] == QUESTION ==> QueryOf(s) == [QUESTION] + BeforeFragment(s[1..])
    ensures s[0] != HASH && s[0] != QUESTION ==> QueryOf(s) == QueryOf(s[1..])
    ensures Escaped(s).Some? ==> QueryOf(s) == QueryOf(s[3..])
  {
    hide Escaped, BeforeFragment;
    PathHead(s);
    FragmentHead(s);
    EscapedHead(s);
  }

  /** The pass keeps what the path stands for and what the query does. */
  lemma {:induction false} BasicKeeps(required: bool, s: Octets, j: nat, plus: bool)
    requires Basic(required, s, j, -1).1 != -2
    ensures var r := Basic(required, s, j, -1);
      && Decoded(PathPart(r, j)) == Decoded(PathOf(s))
      && Meaning(QueryPart(r, j), plus) == Meaning(QueryOf(s), plus)
      && (QueryPart(r, j) == [] <==> QueryOf(s) == [])
    decreases |s|
  {
    hide Escaped, Decodes, BeforeFragment, PathOf, QueryOf, Reqd, Escape, PathPart, QueryPart, Decoded, Meaning;
    NothingKept(j, plus);
    NoSlash();
    if s == [] { return; }
    var r := Basic(required, s, j, -1);
    PathHead(s);
    QueryHead(s);
    EscapedHead(s);
    if s[0] == QUESTION {
      QsStays(required, s[1..], j + 1, j);
      QuestionPart(r, j);
      QueryWhole(r, j);
      QueryMeans(required, s[1..], j + 1, j, plus);
      MeansLit(QUESTION, Basic(required, s[1..], j + 1, j).0, plus);
      MeansLit(QUESTION, BeforeFragment(s[1..]), plus);
    } else if !Reqd(s[0]) {
      BasicKeeps(required, s[1..], j + 1, plus);
      PartHead(required, s[1..], j, [s[0]], r);
      QueryBehind(required, s[1..], j, [s[0]], r);
      DecodedLit(s[0], PathPart(Basic(required, s[1..], j + 1, -1), j + 1));
      DecodedLit(s[0], PathOf(s[1..]));
    } else if Escaped(s).Some? {
      var x := Escaped(s).value;
      FirstEscape(s);
      DecodedFirst(s[..3], PathOf(s[3..]));
      if Decodes(required, false, x) {
        LiteralIsGood(required, false, x);
        BasicKeeps(required, s[3..], j + 1, plus);
        PartHead(required, s[3..], j, [x], r);
        QueryBehind(required, s[3..], j, [x], r);
        DecodedLit(x, PathPart(Basic(required, s[3..], j + 1, -1), j + 1));
      } else {
        if BadUtf8(x) { QsStays(required, s[3..], j + 3, -2); }
        BasicKeeps(required, s[3..], j + 3, plus);
        PartHead(required, s[3..], j, Escape(x), r);
        QueryBehind(required, s[3..], j, Escape(x), r);
        DecodedEscape(x, PathPart(Basic(required, s[3..], j + 3, -1), j + 3));
      }
    } else if s[0] != HASH {
      if BadUtf8(s[0]) { QsStays(required, s[1..], j + 3, -2); }
      BasicKeeps(required, s[1..], j + 3, plus);
      PartHead(required, s[1..], j, Escape(s[0]), r);
      QueryBehind(required, s[1..], j, Escape(s[0]), r);
      DecodedEscape(s[0], PathPart(Basic(required, s[1..], j + 3, -1), j + 3));
      RawDecoded(s);
    }
  }

  lemma NothingKept(j: nat, plus: bool)
    ensures PathPart(([], -1), j) == [] && QueryPart(([], -1), j) == [] && QueryOf([]) == [] && Meaning([], plus) == []
  {
    NoSlash();
  }

  lemma QueryWhole(r: (Octets, int), j: nat)
    requires PathPart(r, j) == []
    ensures QueryPart(r, j) == r.0
  {
  }

  lemma DecodedFirst(e: Octets, p: Octets)
    requires |e| == 3 && Escaped(e).Some?
    ensures Decoded(e + p) == [Escaped(e).value] + Decoded(p)
  {
    assert (e + p)[3..] == p;
  }

  /** A byte of a path that starts no escape. */
  lemma RawDecoded(s: Octets)
    requires s != [] && Escaped(s).None? && PathOf(s) == [s[0]] + PathOf(s[1..])
    ensures Decoded(PathOf(s)) == [s[0]] + Decoded(PathOf(s[1..]))
  {
    PathPrefix(s);
    DecodedHead(PathOf(s));
    assert PathOf(s)[1..] == PathOf(s[1..]);
  }

  // ---------------------------------------------------------------- the whole

  /** A text and where its query starts: its path, and its query with the "?". */
  ghost predicate Halves(r: (Octets, int), path: Octets, query: Octets) {
    -1 <= r.1 < |r.0| && r.0[..PathLength(r.0, r.1)] == path && r.0[PathLength(r.0, r.1)..] == query && (r.1 >= 0 <==> query != [])
    && (query != [] ==> query[0] == QUESTION)
  }

  lemma BasicHalves(required: bool, s: Octets)
    requires Basic(required, s, 0, -1).1 != -2
    ensures var r := Basic(required, s, 0, -1); Halves(r, PathPart(r, 0), QueryPart(r, 0))
  {
    var k := BasicNormal(required, s, 0);
    PathIsPart(required, s);
  }

  lemma SlashHalves(s: Octets, qs: int, flags: Flags, path: Octets, query: Octets)
    requires Halves((s, qs), path, query) && SlashPass(s, qs, flags).1 != -2
    ensures Halves(SlashPass(s, qs, flags), if flags.slashDecode then Replace(path, DIGIT2, UPPER_F, SLASH) else path, query)
  {
    hide Replace;
    SlashedPath(s, qs, flags);
    assert path + query == s;
    var p := Replace(path, DIGIT2, UPPER_F, SLASH);
    assert (p + query)[..|p|] == p && (p + query)[|p|..] == query;
  }

  lemma PathHalves(s: Octets, qs: int, flags: Flags, path: Octets, query: Octets)
    requires Halves((s, qs), path, query) && PathPass(s, qs, flags).1 != -2
    ensures Halves(PathPass(s, qs, flags), if ScanFinds(path) then SimplifyText(Stripped(path)) else path, query)
  {
    hide ScanFinds, SimplifyText, Stripped;
    assert path + query == s;
    var p := SimplifyText(Stripped(path));
    assert (p + query)[..|p|] == p && (p + query)[|p|..] == query;
  }

  lemma PlusHalves(s: Octets, qs: int, path: Octets, query: Octets)
    requires Halves((s, qs), path, query)
    ensures Halves((PlusPass(s, qs), qs), path, Replace(query, DIGIT2, DIGIT0, PLUS))
  {
    hide Replace;
    ReplaceNone(DIGIT2, DIGIT0, PLUS);
    if qs >= 0 {
      ReplaceQuestion(query);
      assert query[1..] == s[qs + 1..];
      var r := Replace(query[1..], DIGIT2, DIGIT0, PLUS);
      var t := s[..qs + 1] + r;
      assert t[..qs] == path && t[qs..] == [QUESTION] + r;
    }
  }

  /** What the path is before dot segments are looked at. */
  lemma GivenIs(s: Octets, flags: Flags)
    requires Basic(flags.required, s, 0, -1).1 != -2
    ensures var p := PathPart(Basic(flags.required, s, 0, -1), 0);
      && PathGiven(s, flags) == (if flags.slashDecode then Replace(p, DIGIT2, UPPER_F, SLASH) else p)
      && Decoded(PathGiven(s, flags)) == Decoded(p)
  {
    hide Basic, Replace;
    PathIsPart(flags.required, s);
    PassesKeep(PathPart(Basic(flags.required, s, 0, -1), 0));
  }

  /** Main result.  An accepted target has the path and the query of the given one, without its fragment: the
      path stands for the same bytes, unless dot segments were removed from it, and so does the query. */
  lemma Accepted(s: Octets, flags: Flags)
    requires Normalize(s, flags).1 != -2
    ensures var (t, q) := Normalize(s, flags); var p := PathGiven(s, flags);
      && q < |t| && Decoded(p) == Decoded(PathOf(s))
      && t[..PathLength(t, q)] == (if Dots(flags) && ScanFinds(p) then SimplifyText(Stripped(p)) else p)
      && Meaning(t[PathLength(t, q)..], flags.queryPlus) == Meaning(QueryOf(s), flags.queryPlus)
      && (q >= 0 <==> QueryOf(s) != [])
  {
    hide Basic, Replace, HasCtrl, SlashPass, PathPass, PlusPass, PathPart, QueryPart, Halves, PathGiven, Decoded, Meaning, ScanFinds,
      SimplifyText, Stripped, PathOf, QueryOf;
    var r := Basic(flags.required, s, 0, -1);
    var path, query := PathPart(r, 0), QueryPart(r, 0);
    BasicHalves(flags.required, s);
    BasicKeeps(flags.required, s, 0, flags.queryPlus);
    GivenIs(s, flags);
    BasicShape(flags.required, s);
    SlashShape(r.0, r.1, flags);
    if Slashes(flags) {
      SlashHalves(r.0, r.1, flags, path, query);
      r := SlashPass(r.0, r.1, flags);
    }
    path := PathGiven(s, flags);
    PathShape(r.0, r.1, flags);
    if Dots(flags) {
      PathHalves(r.0, r.1, flags, path, query);
      r := PathPass(r.0, r.1, flags);
      if ScanFinds(path) { path := SimplifyText(Stripped(path)); }
    }
    if flags.queryPlus {
      PlusHalves(r.0, r.1, path, query);
      PassesKeep(query);
      NoneReplaced(query);
      r, query := (PlusPass(r.0, r.1), r.1), Replace(query, DIGIT2, DIGIT0, PLUS);
    }
    HalvesAre(r, path, query);
  }

  lemma NoneReplaced(query: Octets)
    ensures Replace(query, DIGIT2, DIGIT0, PLUS) == [] <==> query == []
  {
  }

  lemma HalvesAre(r: (Octets, int), path: Octets, query: Octets)
    requires Halves(r, path, query)
    ensures r.1 < |r.0| && r.0[..PathLength(r.0, r.1)] == path && r.0[PathLength(r.0, r.1)..] == query && (r.1 >= 0 <==> query != [])
  {
  }
}
