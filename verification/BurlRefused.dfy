/** Which targets burl_normalize refuses, and what the replacing passes keep of an accepted one. */
module BurlRefused {
  import opened Bytes
  import opened PathSimplify
  import opened Burl

  // ---------------------------------------------------------------- characters

  const ALPHANUMERIC := UPPER_CASE + LOWER_CASE + DIGITS

  lemma AlphanumericOr(c: Byte, more: string)
    ensures Among(c, ALPHANUMERIC + more) <==> 48 <= c <= 57 || 65 <= c <= 90 || 97 <= c <= 122 || Among(c, more)
  {
    hide Among;
    Alphanumeric(c);
    AmongBoth(c, ALPHANUMERIC, more);
  }

  lemma Marks(c: Byte)
    ensures Among(c, "!$&'()*+,-./:;=?@_~") <==> c in {33, 36, 38, 39, 40, 41, 42, 43, 44, 45, 46, 47, 58, 59, 61, 63, 64, 95, 126}
  {
    var t := "!$&'()*+,-./:;=?@_~";
    assert t == [t[0], t[1], t[2], t[3], t[4], t[5], t[6], t[7], t[8], t[9], t[10], t[11], t[12], t[13], t[14], t[15], t[16], t[17], t[18]];
  }

  lemma FewMarks(c: Byte)
    ensures Among(c, "-._~") <==> c in {45, 46, 95, 126}
    ensures Among(c, "/?") <==> c in {47, 63}
    ensures Among(c, "&;=+") <==> c in {38, 59, 61, 43}
  {
    var t, u, v := "-._~", "/?", "&;=+";
    assert t == [t[0], t[1], t[2], t[3]] && u == [u[0], u[1]] && v == [v[0], v[1], v[2], v[3]];
  }

  /** The bytes that are never escaped. */
  lemma LiteralsAre(c: Byte)
    ensures !Reqd(c) <==> Among(c, ALPHANUMERIC + "!$&'()*+,-./:;=?@_~")
  {
    hide Among;
    AlphanumericOr(c, "!$&'()*+,-./:;=?@_~");
    Marks(c);
  }

  /** The escapes that are decoded: of unreserved characters, or of all that are not escaped but for the
      delimiters of the path, or of the query. */
  lemma DecodedAre(inQuery: bool, c: Byte)
    ensures Decodes(false, inQuery, c) <==> Among(c, ALPHANUMERIC + "-._~")
    ensures Decodes(true, inQuery, c) <==> !Reqd(c) && !Among(c, if inQuery then "&;=+" else "/?")
  {
    hide Among;
    AlphanumericOr(c, "-._~");
    FewMarks(c);
  }

  lemma Punctuation()
    ensures [PERCENT, HASH, PLUS, DIGIT2, DIGIT0, UPPER_F, SLASH, DOT, QUESTION] == Ascii("%#+20F/.?")
  {
  }

  // ---------------------------------------------------------------- what is refused

  /** A byte that no UTF-8 text has. */
  ghost predicate Invalid(t: Octets) { exists x :: x in t && (x == 0xC0 || x == 0xC1 || x >= 0xF5) }

  ghost predicate Control(t: Octets) { exists x :: x in t && (x < 0x20 || x == 0x7F) }

  /** The path of a target, before its query and its fragment. */
  function PathOf(s: Octets): Octets { BeforeFragment(s)[..Find(BeforeFragment(s), QUESTION)] }

  /** "%2F" or "%2f" at i. */
  predicate SlashAt(p: Octets, i: nat) {
    i + 3 <= |p| && (p[i..i + 3] == Ascii("%2F") || p[i..i + 3] == Ascii("%2f"))
  }

  ghost predicate EscapedSlash(p: Octets) { exists i: nat :: SlashAt(p, i) }

  /** The path that is looked at for dot segments: percent-encoding is normal, and escaped slashes are decoded
      if that is asked for. */
  function PathGiven(s: Octets, flags: Flags): Octets {
    var (t, q) := Basic(flags.required, s, 0, -1);
    BasicShape(flags.required, s);
    var p := if q == -2 then [] else t[..PathLength(t, q)];
    if flags.slashDecode then Replace(p, DIGIT2, UPPER_F, SLASH) else p
  }

  /** The basic pass refuses a text exactly for an invalid byte, escaped or not. */
  lemma {:induction false} BadExact(required: bool, s: Octets, j: nat, qs: int)
    requires qs >= -1
    ensures Basic(required, s, j, qs).1 == -2 <==> Invalid(Decoded(BeforeFragment(s)))
    decreases |s|
  {
    hide Escaped, Decodes, BeforeFragment, Reqd, Invalid, Decoded;
    NoInvalid();
    if s == [] {
      NoFragment();
      return;
    }
    FragmentHead(s);
    EscapedHead(s);
    Places(required, s[0]);
    var f := BeforeFragment(s);
    if !Reqd(s[0]) {
      BadExact(required, s[1..], j + 1, if s[0] == QUESTION && qs == -1 then j else qs);
      DecodedLit(s[0], BeforeFragment(s[1..]));
      InvalidHead(s[0], Decoded(BeforeFragment(s[1..])));
    } else if Escaped(s).Some? {
      var x := Escaped(s).value;
      assert f[3..] == BeforeFragment(s[3..]);
      DecodedHead(f);
      InvalidHead(x, Decoded(f[3..]));
      if Decodes(required, qs >= 0, x) {
        LiteralIsGood(required, qs >= 0, x);
        BadExact(required, s[3..], j + 1, qs);
      } else if BadUtf8(x) {
        QsStays(required, s[3..], j + 3, -2);
      } else {
        BadExact(required, s[3..], j + 3, qs);
      }
    } else if s[0] != HASH {
      assert f[1..] == BeforeFragment(s[1..]);
      DecodedHead(f);
      InvalidHead(s[0], Decoded(f[1..]));
      if BadUtf8(s[0]) { QsStays(required, s[1..], j + 3, -2); } else { BadExact(required, s[1..], j + 3, qs); }
    } else {
      assert f == [];
    }
  }

  lemma NoInvalid()
    ensures Decoded([]) == [] && !Invalid([]) && !Control([])
  {
  }

  lemma InvalidHead(x: Byte, t: Octets)
    ensures Invalid([x] + t) <==> BadUtf8(x) || Invalid(t)
    ensures Control([x] + t) <==> Ctrl(x) || Control(t)
    ensures !Reqd(x) ==> !BadUtf8(x) && !Ctrl(x)
  {
    var s := [x] + t;
    assert x in s && forall y :: y in s <==> y == x || y in t;
  }

  lemma LiteralIsGood(required: bool, inQuery: bool, x: Byte)
    requires Decodes(required, inQuery, x)
    ensures !BadUtf8(x) && !Ctrl(x) && !Reqd(x) && x != PERCENT && (!inQuery ==> x != SLASH)
  {
  }

  lemma DecodedHead(f: Octets)
    requires f != []
    ensures Decoded(f) == if Escaped(f).Some? then [Escaped(f).value] + Decoded(f[3..]) else [f[0]] + Decoded(f[1..])
  {
  }

  /** The control check finds exactly the control characters that the text stands for. */
  lemma {:induction false} CtrlExact(required: bool, s: Octets, j: nat, qs: int)
    ensures var t := Basic(required, s, j, qs).0; HasCtrl(t) <==> Control(Decoded(t))
    decreases |s|
  {
    hide Escaped, Decodes, Escape, Reqd, HasCtrl, Control, Decoded, Ctrl;
    NoInvalid();
    NoCtrl();
    if s == [] { return; }
    EscapedHead(s);
    if !Reqd(s[0]) {
      var q := if s[0] == QUESTION && qs == -1 then j else qs;
      CtrlExact(required, s[1..], j + 1, q);
      CtrlLit(s[0], Basic(required, s[1..], j + 1, q).0);
    } else if Escaped(s).Some? {
      var x := Escaped(s).value;
      if Decodes(required, qs >= 0, x) {
        LiteralIsGood(required, qs >= 0, x);
        CtrlExact(required, s[3..], j + 1, qs);
        CtrlLit(x, Basic(required, s[3..], j + 1, qs).0);
      } else {
        var q := if BadUtf8(x) then -2 else qs;
        CtrlExact(required, s[3..], j + 3, q);
        CtrlEscape(x, Basic(required, s[3..], j + 3, q).0);
      }
    } else if s[0] != HASH {
      var q := if BadUtf8(s[0]) then -2 else qs;
      CtrlExact(required, s[1..], j + 3, q);
      CtrlEscape(s[0], Basic(required, s[1..], j + 3, q).0);
    }
  }

  lemma NoCtrl()
    ensures !HasCtrl([])
  {
  }

  lemma CtrlLit(c: Byte, t: Octets)
    requires !Reqd(c)
    ensures HasCtrl([c] + t) <==> HasCtrl(t)
    ensures Control(Decoded([c] + t)) <==> Control(Decoded(t))
  {
    hide Decoded, Control;
    assert ([c] + t)[1..] == t;
    HasCtrlHead([c] + t);
    DecodedLit(c, t);
    InvalidHead(c, Decoded(t));
  }

  lemma CtrlEscape(x: Byte, t: Octets)
    ensures HasCtrl(Escape(x) + t) <==> Ctrl(x) || HasCtrl(t)
    ensures Control(Decoded(Escape(x) + t)) <==> Ctrl(x) || Control(Decoded(t))
  {
    hide Decoded, Control, HasCtrl, Escape;
    HasCtrlEscape(x, t);
    DecodedEscape(x, t);
    InvalidHead(x, Decoded(t));
  }

  // ---------------------------------------------------------------- escaped slashes

  lemma SlashText(p: Octets, i: nat)
    ensures SlashAt(p, i) <==> i + 3 <= |p| && p[i] == PERCENT && p[i + 1] == DIGIT2 && (p[i + 2] == UPPER_F || p[i + 2] == 102)
  {
    assert Ascii("%2F") == [PERCENT, DIGIT2, UPPER_F] && Ascii("%2f") == [PERCENT, DIGIT2, 102];
    if i + 3 <= |p| { assert p[i..i + 3] == [p[i], p[i + 1], p[i + 2]]; }
  }

  lemma SlashHead(c: Byte, p: Octets)
    ensures EscapedSlash([c] + p) <==> SlashAt([c] + p, 0) || EscapedSlash(p)
    ensures c != PERCENT ==> (EscapedSlash([c] + p) <==> EscapedSlash(p))
  {
    hide SlashAt;
    var s := [c] + p;
    forall i: nat ensures SlashAt(s, i + 1) <==> SlashAt(p, i) {
      SlashText(s, i + 1);
      SlashText(p, i);
    }
    if EscapedSlash(s) {
      var i: nat :| SlashAt(s, i);
      if i > 0 { assert SlashAt(p, i - 1); }
    }
    if EscapedSlash(p) {
      var i: nat :| SlashAt(p, i);
      assert SlashAt(s, i + 1);
    }
    SlashText(s, 0);
  }

  /** Only an escape of 47 is an escaped slash. */
  lemma SlashEscape(e: Octets, p: Octets)
    requires |e| == 3 && Escaped(e).Some?
    ensures EscapedSlash(e + p) <==> Escaped(e).value == 47 || EscapedSlash(p)
  {
    hide SlashAt, EscapedSlash;
    var s := e + p;
    assert s == [e[0]] + ([e[1]] + ([e[2]] + p));
    SlashHead(e[0], [e[1]] + ([e[2]] + p));
    SlashHead(e[1], [e[2]] + p);
    SlashHead(e[2], p);
    SlashText(s, 0);
    HexDigit(e[1], 2);
    HexDigit(e[2], 15);
    HexTable(2);
    HexTable(15);
  }

  lemma NoSlash()
    ensures !Reqd(QUESTION) && !EscapedSlash([]) && Replace([], DIGIT2, UPPER_F, SLASH) == [] && BeforeFragment([]) == [] && PathOf([]) == []
  {
  }

  /** The path of a target without its first byte, or its first escape. */
  lemma PathHead(s: Octets)
    requires s != []
    ensures s[0] == HASH || s[0] == QUESTION ==> PathOf(s) == []
    ensures s[0] != HASH && s[0] != QUESTION ==> PathOf(s) == [s[0]] + PathOf(s[1..])
    ensures Escaped(s).Some? ==> PathOf(s) == s[..3] + PathOf(s[3..])
  {
    hide Escaped, HexValue;
    FragmentHead(s);
    FindHead(BeforeFragment(s), QUESTION);
    if Escaped(s).Some? {
      EscapeBytes(s);
      PathTail(s, 1);
      PathTail(s, 2);
      assert s[1..][1..] == s[2..] && s[2..][1..] == s[3..];
      assert s[..3] == [s[0], s[1], s[2]];
    }
  }

  lemma FindHead(f: Octets, c: Byte)
    ensures f != [] ==> f[..Find(f, c)] == if f[0] == c then [] else [f[0]] + f[1..][..Find(f[1..], c)]
  {
  }

  lemma EscapeBytes(s: Octets)
    requires Escaped(s).Some?
    ensures s[0] == PERCENT && forall i :: 0 <= i < 3 ==> s[i] != HASH && s[i] != QUESTION
  {
  }

  lemma PathTail(s: Octets, i: nat)
    requires i < |s| && s[i] != HASH && s[i] != QUESTION
    ensures PathOf(s[i..]) == [s[i]] + PathOf(s[i..][1..])
  {
    FragmentHead(s[i..]);
    FindHead(BeforeFragment(s[i..]), QUESTION);
  }

  /** The part of a result before its query, when j bytes were written before. */
  function PathPart(r: (Octets, int), j: nat): Octets { if j <= r.1 <= j + |r.0| then r.0[..r.1 - j] else r.0 }

  lemma PartHead(required: bool, s: Octets, j: nat, e: Octets, r: (Octets, int))
    requires Basic(required, s, j + |e|, -1).1 != -2
    requires var n := Basic(required, s, j + |e|, -1); r == (e + n.0, n.1)
    ensures PathPart(r, j) == e + PathPart(Basic(required, s, j + |e|, -1), j + |e|)
  {
    var n := Basic(required, s, j + |e|, -1);
    var k := BasicNormal(required, s, j + |e|);
    if n.1 >= 0 { assert (e + n.0)[..|e| + k] == e + n.0[..k]; }
  }

  lemma ReplaceLit(c: Byte, p: Octets)
    requires c != PERCENT
    ensures Replace([c] + p, DIGIT2, UPPER_F, SLASH) == [c] + Replace(p, DIGIT2, UPPER_F, SLASH)
    ensures EscapedSlash([c] + p) <==> EscapedSlash(p)
  {
    hide EscapedSlash;
    assert ([c] + p)[1..] == p;
    SlashHead(c, p);
  }

  lemma ReplaceEscape(x: Byte, p: Octets)
    ensures Replace(Escape(x) + p, DIGIT2, UPPER_F, SLASH) ==
      (if x == 47 then [SLASH] else Escape(x)) + Replace(p, DIGIT2, UPPER_F, SLASH)
  {
    hide Escaped;
    var s := Escape(x) + p;
    LitFacts();
    EscapedEscape(x, p);
    SameEscape(47, x, p);
    assert s[..3] == Escape(x) && s[3..] == p;
    if x != 47 { ReplaceOther(s, DIGIT2, UPPER_F, SLASH); }
  }

  ghost predicate Changed(p: Octets) { Replace(p, DIGIT2, UPPER_F, SLASH) != p }

  lemma ChangedLit(c: Byte, p: Octets)
    requires c != PERCENT
    ensures Changed([c] + p) <==> Changed(p)
  {
    hide Replace;
    ReplaceLit(c, p);
    assert p == ([c] + p)[1..] && Replace(p, DIGIT2, UPPER_F, SLASH) == ([c] + Replace(p, DIGIT2, UPPER_F, SLASH))[1..];
  }

  lemma ChangedEscape(x: Byte, p: Octets)
    ensures Changed(Escape(x) + p) <==> x == 47 || Changed(p)
  {
    hide Replace, Escape;
    ReplaceEscape(x, p);
    var e, r := Escape(x), Replace(p, DIGIT2, UPPER_F, SLASH);
    ReplaceShorter(p, DIGIT2, UPPER_F, SLASH);
    assert p == (e + p)[3..] && r == (e + r)[3..];
  }

  /** A byte that the pass escapes is no slash, and starts no escaped one. */
  lemma RawByte(s: Octets)
    requires s != [] && Reqd(s[0]) && Escaped(s).None? && s[0] != HASH && PathOf(s) == [s[0]] + PathOf(s[1..])
    ensures s[0] != 47 && (EscapedSlash(PathOf(s)) <==> EscapedSlash(PathOf(s[1..])))
  {
    hide EscapedSlash;
    SlashHead(s[0], PathOf(s[1..]));
    var p := PathOf(s);
    SlashText(p, 0);
    PathPrefix(s);
  }

  lemma PathPrefix(s: Octets)
    ensures |PathOf(s)| <= |s| && forall i :: 0 <= i < |PathOf(s)| ==> PathOf(s)[i] == s[i]
  {
  }

  /** The escaped slashes that the slash pass sees are those of the target's path. */
  lemma {:induction false} SlashExact(required: bool, s: Octets, j: nat)
    requires Basic(required, s, j, -1).1 != -2
    ensures Changed(PathPart(Basic(required, s, j, -1), j)) <==> EscapedSlash(PathOf(s))
    decreases |s|
  {
    hide Escaped, Decodes, BeforeFragment, PathOf, Reqd, Escape, Replace, EscapedSlash, PathPart, Changed;
    NoSlash();
    NoChange(j);
    if s == [] { return; }
    PathHead(s);
    EscapedHead(s);
    var rest := PathOf(s[1..]);
    if s[0] == QUESTION {
      QsStays(required, s[1..], j + 1, j);
      QuestionPart(Basic(required, s, j, -1), j);
    } else if !Reqd(s[0]) {
      SlashExact(required, s[1..], j + 1);
      PartHead(required, s[1..], j, [s[0]], Basic(required, s, j, -1));
      ChangedLit(s[0], PathPart(Basic(required, s[1..], j + 1, -1), j + 1));
      SlashHead(s[0], rest);
    } else if Escaped(s).Some? {
      var x := Escaped(s).value;
      FirstEscape(s);
      SlashEscape(s[..3], PathOf(s[3..]));
      if Decodes(required, false, x) {
        LiteralIsGood(required, false, x);
        SlashExact(required, s[3..], j + 1);
        PartHead(required, s[3..], j, [x], Basic(required, s, j, -1));
        ChangedLit(x, PathPart(Basic(required, s[3..], j + 1, -1), j + 1));
      } else {
        if BadUtf8(x) { QsStays(required, s[3..], j + 3, -2); }
        SlashExact(required, s[3..], j + 3);
        PartHead(required, s[3..], j, Escape(x), Basic(required, s, j, -1));
        ChangedEscape(x, PathPart(Basic(required, s[3..], j + 3, -1), j + 3));
      }
    } else if s[0] != HASH {
      RawByte(s);
      if BadUtf8(s[0]) { QsStays(required, s[1..], j + 3, -2); }
      SlashExact(required, s[1..], j + 3);
      PartHead(required, s[1..], j, Escape(s[0]), Basic(required, s, j, -1));
      ChangedEscape(s[0], PathPart(Basic(required, s[1..], j + 3, -1), j + 3));
    }
  }

  lemma FirstEscape(s: Octets)
    requires Escaped(s).Some?
    ensures |s| >= 3 && Escaped(s[..3]) == Escaped(s)
  {
  }

  lemma NoChange(j: nat)
    ensures !Changed([]) && PathPart(([], -1), j) == []
  {
    NoSlash();
  }

  lemma QuestionPart(r: (Octets, int), j: nat)
    requires r.1 == j
    ensures PathPart(r, j) == []
  {
  }

  // ---------------------------------------------------------------- the whole

  lemma PathIsPart(required: bool, s: Octets)
    requires Basic(required, s, 0, -1).1 != -2
    ensures var (t, q) := Basic(required, s, 0, -1); q < |t| && t[..PathLength(t, q)] == PathPart((t, q), 0)
  {
    BasicShape(required, s);
    var (t, q) := Basic(required, s, 0, -1);
    assert t[..|t|] == t;
  }

  /** Main result.  A target is refused if and only if it stands for an invalid byte; or for a control
      character, an escaped slash in its path, or a path with dot segments, where that is not allowed. */
  lemma RefusedExact(s: Octets, flags: Flags)
    ensures Normalize(s, flags).1 == -2 <==>
      || Invalid(Decoded(BeforeFragment(s)))
      || (flags.ctrlsReject && Control(Decoded(BeforeFragment(s))))
      || (flags.slashReject && !flags.slashDecode && EscapedSlash(PathOf(s)))
      || (flags.dotReject && ScanFinds(PathGiven(s, flags)))
  {
    hide Basic, Replace, HasCtrl, Control, Invalid, EscapedSlash, ScanFinds, Decoded, BeforeFragment, PathOf, PlusPass, PathLength, SlashPass, Changed,
      PathPart;
    BadExact(flags.required, s, 0, -1);
    var (s1, q1) := Basic(flags.required, s, 0, -1);
    if q1 != -2 {
      CtrlExact(flags.required, s, 0, -1);
      BasicDecodes(flags.required, s, 0, -1);
      PathIsPart(flags.required, s);
      SlashExact(flags.required, s, 0);
      BasicShape(flags.required, s);
      SlashShape(s1, q1, flags);
      var (s2, q2) := if Slashes(flags) then SlashPass(s1, q1, flags) else (s1, q1);
      SlashedPath(s1, q1, flags);
    } else {
      NothingGiven(s, flags);
    }
  }

  /** What the slash pass leaves of the path when it accepts. */
  lemma SlashedPath(s: Octets, qs: int, flags: Flags)
    requires -1 <= qs < |s|
    ensures var (t, q) := SlashPass(s, qs, flags); var p := s[..PathLength(s, qs)];
      && (q == -2 <==> !flags.slashDecode && Changed(p))
      && (q != -2 ==> q < |t| && t[..PathLength(t, q)] == if flags.slashDecode then Replace(p, DIGIT2, UPPER_F, SLASH) else p)
  {
    var k := PathLength(s, qs);
    var p := Replace(s[..k], DIGIT2, UPPER_F, SLASH);
    assert (p + s[k..])[..|p|] == p;
  }

  lemma NothingGiven(s: Octets, flags: Flags)
    requires Basic(flags.required, s, 0, -1).1 == -2
    ensures PathGiven(s, flags) == [] && !ScanFinds([])
  {
    NoSlash();
  }
}
