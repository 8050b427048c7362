/** Dot-segment removal in place (buffer.c), and the scan with which the URL normalisation decides whether
    it is needed (burl.c). */
module PathSimplify {
  import opened Bytes

  const SLASH: Byte := 47
  const DOT: Byte := 46
  const QUESTION: Byte := 63

  // ---------------------------------------------------------------- the resolver

  /** The output that a stack of segments stands for. */
  function Join(stack: seq<Octets>): Octets {
    if stack == [] then [] else Join(stack[..|stack| - 1]) + [SLASH] + stack[|stack| - 1]
  }

  /** The segment that starts a text: everything before the next slash. */
  function Segment(s: Octets): (seg: Octets)
    ensures seg <= s && SLASH !in seg && (|seg| < |s| ==> s[|seg|] == SLASH)
  {
    s[..Find(s, SLASH)]
  }

  /** What follows the first segment of a path. */
  function After(s: Octets): (r: Octets)
    requires IsPath(s)
    ensures s == [SLASH] + Segment(s[1..]) + r && |r| < |s| && (r == [] || IsPath(r))
  {
    s[1 + |Segment(s[1..])|..]
  }

  predicate IsPath(s: Octets) { s != [] && s[0] == SLASH }

  predicate Special(seg: Octets) { seg == [] || seg == [DOT] || seg == [DOT, DOT] }

  /** ".." drops a segment, "." and the empty segment nothing, any other is kept. */
  function Apply(stack: seq<Octets>, seg: Octets): seq<Octets> {
    if seg == [DOT, DOT] then (if stack == [] then [] else stack[..|stack| - 1])
    else if Special(seg) then stack
    else stack + [seg]
  }

  /** Resolves the rest of a path, which starts with a slash, segment by segment. */
  function Resolve(stack: seq<Octets>, rest: Octets): Octets
    requires rest == [] || IsPath(rest)
    decreases |rest|
  {
    if rest == [] then Join(stack)
    else
      var seg, rest' := Segment(rest[1..]), After(rest);
      if rest' == [] && Special(seg) then Join(Apply(stack, seg)) + [SLASH]
      else Resolve(Apply(stack, seg), rest')
  }

  function Simplify(s: Octets): Octets
    requires s == [] || IsPath(s)
  {
    Resolve([], s)
  }

  // ---------------------------------------------------------------- what changes a path

  /** Some segment is "." or "..", or empty and not the last one. */
  predicate Dotted(rest: Octets)
    requires rest == [] || IsPath(rest)
    decreases |rest|
  {
    rest != [] &&
      var seg, rest' := Segment(rest[1..]), After(rest);
      (Special(seg) && !(seg == [] && rest' == [])) || Dotted(rest')
  }

  /** The resolver never lengthens a path, and changes it exactly when a segment is dotted. */
  lemma {:induction false} ResolveLength(stack: seq<Octets>, rest: Octets)
    requires rest == [] || IsPath(rest)
    ensures |Resolve(stack, rest)| <= |Join(stack)| + |rest|
    ensures Dotted(rest) ==> |Resolve(stack, rest)| < |Join(stack)| + |rest|
    ensures !Dotted(rest) ==> Resolve(stack, rest) == Join(stack) + rest
    decreases |rest|
  {
    hide Join, Segment, After, Apply, Resolve, Special;
    ResolveHead(stack, rest);
    if rest == [] {
      assert Join(stack) + [] == Join(stack);
    } else {
      var seg, rest' := Segment(rest[1..]), After(rest);
      var next := Apply(stack, seg);
      ApplyLength(stack, seg);
      ResolveLength(next, rest');
      assert |rest| == 1 + |seg| + |rest'|;
      if !Special(seg) {
        assert Join(stack) + rest == (Join(stack) + [SLASH] + seg) + rest';
      }
    }
  }

  lemma ResolveHead(stack: seq<Octets>, rest: Octets)
    requires rest == [] || IsPath(rest)
    ensures rest == [] ==> Resolve(stack, rest) == Join(stack)
    ensures rest != [] ==> var seg, rest' := Segment(rest[1..]), After(rest);
      Resolve(stack, rest) == if rest' == [] && Special(seg) then Join(Apply(stack, seg)) + [SLASH] else Resolve(Apply(stack, seg), rest')
  {
    hide Join, Segment, After, Apply, Special;
  }

  lemma ApplyLength(stack: seq<Octets>, seg: Octets)
    ensures Special(seg) ==> |Join(Apply(stack, seg))| <= |Join(stack)|
    ensures seg == [] || seg == [DOT] ==> Apply(stack, seg) == stack
    ensures !Special(seg) ==> Join(Apply(stack, seg)) == Join(stack) + [SLASH] + seg
  {
  }

  lemma DottedExact(s: Octets)
    requires IsPath(s)
    ensures Dotted(s) <==> Simplify(s) != s
  {
    ResolveLength([], s);
  }

  // ---------------------------------------------------------------- resolved paths

  ghost predicate Plain(stack: seq<Octets>) { forall seg :: seg in stack ==> SLASH !in seg && !Special(seg) }

  lemma JoinLast(stack: seq<Octets>)
    requires stack != []
    ensures Join(stack) == Join(stack[..|stack| - 1]) + [SLASH] + stack[|stack| - 1]
  {
  }

  lemma {:induction false} JoinFront(stack: seq<Octets>)
    requires stack != []
    ensures Join(stack) == [SLASH] + stack[0] + Join(stack[1..])
    decreases |stack|
  {
    hide Join;
    var k := |stack| - 1;
    JoinLast(stack);
    JoinNone();
    if k == 0 {
      assert stack[..0] == [] && stack[1..] == [];
      assert Join(stack) == [SLASH] + stack[0] + [];
    } else {
      var mid := Join(stack[1..k]);
      JoinFront(stack[..k]);
      JoinLast(stack[1..]);
      assert stack[..k][1..] == stack[1..k] == stack[1..][..k - 1] && stack[1..][k - 1] == stack[k];
      assert ([SLASH] + stack[0] + mid) + [SLASH] + stack[k] == [SLASH] + stack[0] + (mid + [SLASH] + stack[k]);
    }
  }

  lemma SegmentOf(seg: Octets, rest: Octets)
    requires SLASH !in seg && (rest == [] || IsPath(rest))
    ensures var s := [SLASH] + seg + rest; Segment(s[1..]) == seg && After(s) == rest
  {
    var s := [SLASH] + seg + rest;
    var t := seg + rest;
    assert s[1..] == t && t[..|seg|] == seg && s[1 + |seg|..] == rest;
    if rest == [] { FindAbsent(t, SLASH); assert t == seg; } else { FindIs(t, SLASH, |seg|); }
  }

  lemma {:induction false} PlainJoin(stack: seq<Octets>, tail: Octets)
    requires Plain(stack) && (tail == [] || tail == [SLASH])
    ensures var s := Join(stack) + tail; (s == [] || IsPath(s)) && !Dotted(s) && (s == [] <==> stack == [] && tail == [])
    decreases |stack|
  {
    hide Join, Segment, After;
    if stack == [] {
      assert Join([]) == [] by { JoinNone(); }
      assert Join(stack) + tail == tail;
      if tail == [SLASH] { SegmentOf([], []); assert [SLASH] + [] + [] == tail; }
    } else {
      var seg, rest := stack[0], Join(stack[1..]) + tail;
      JoinFront(stack);
      assert seg in stack;
      PlainJoin(stack[1..], tail);
      SegmentOf(seg, rest);
      assert Join(stack) + tail == [SLASH] + seg + rest;
    }
  }

  lemma JoinNone()
    ensures Join([]) == []
  {
  }

  /** The resolver's result is made of plain segments, with perhaps a slash at the end. */
  lemma {:induction false} ResolvedShape(stack: seq<Octets>, rest: Octets) returns (end: seq<Octets>, tail: Octets)
    requires Plain(stack) && (rest == [] || IsPath(rest))
    ensures Plain(end) && (tail == [] || tail == [SLASH]) && Resolve(stack, rest) == Join(end) + tail
    ensures rest != [] ==> end != [] || tail != []
    decreases |rest|
  {
    if rest == [] { return stack, []; }
    var seg, rest' := Segment(rest[1..]), After(rest);
    var next := Apply(stack, seg);
    if rest' == [] && Special(seg) {
      end, tail := next, [SLASH];
    } else {
      end, tail := ResolvedShape(next, rest');
    }
  }

  /** Simplified paths start with a slash and are left alone. */
  lemma SimplifyTwice(s: Octets)
    requires IsPath(s)
    ensures IsPath(Simplify(s)) && !Dotted(Simplify(s)) && Simplify(Simplify(s)) == Simplify(s)
  {
    var end, tail := ResolvedShape([], s);
    PlainJoin(end, tail);
    ResolveLength([], Simplify(s));
    JoinNone();
  }

  // ---------------------------------------------------------------- texts without a slash in front

  /** A text is a path, perhaps with a first segment in front that no slash starts.  That segment is a base
      below the stack: ".." on an empty stack drops it, and the rest is resolved like a path.  When the
      dropping segment is the last one, the first byte of the base stays. */
  function ResolveOn(base: Octets, stack: seq<Octets>, rest: Octets): Octets
    requires rest == [] || IsPath(rest)
    decreases |rest|
  {
    if rest == [] then base + Join(stack)
    else
      var seg, rest' := Segment(rest[1..]), After(rest);
      if rest' == [] && Special(seg) then AtLast(base, stack, seg)
      else ResolveOn(Below(base, stack, seg), Apply(stack, seg), rest')
  }

  /** The base after a segment. */
  function Below(base: Octets, stack: seq<Octets>, seg: Octets): Octets {
    if Drops(stack, seg) then [] else base
  }

  predicate Drops(stack: seq<Octets>, seg: Octets) { seg == [DOT, DOT] && stack == [] }

  /** What "", "." and ".." make of the output at the end of the text. */
  function AtLast(base: Octets, stack: seq<Octets>, seg: Octets): Octets {
    if Drops(stack, seg) && base != [] then base[..1] else base + Join(Apply(stack, seg)) + [SLASH]
  }

  /** The result for every text: a path is resolved; a first segment of one letter is dropped when more
      follows; a longer one is a base. */
  function SimplifyText(p: Octets): Octets {
    if p == [] || IsPath(p) then Simplify(p)
    else
      var tok, rest := Segment(p), Behind(p);
      if rest == [] then tok else if |tok| == 1 then Simplify(rest) else ResolveOn(tok, [], rest)
  }

  /** What follows the first segment of a text without a slash in front. */
  function Behind(p: Octets): (rest: Octets)
    ensures p == Segment(p) + rest && (rest == [] || IsPath(rest))
  {
    p[|Segment(p)|..]
  }

  lemma {:induction false} NoBase(stack: seq<Octets>, rest: Octets)
    requires rest == [] || IsPath(rest)
    ensures ResolveOn([], stack, rest) == Resolve(stack, rest)
    decreases |rest|
  {
    hide Join, Segment, After, Apply;
    assert [] + Join(stack) == Join(stack);
    if rest != [] {
      var seg, rest' := Segment(rest[1..]), After(rest);
      assert [] + Join(Apply(stack, seg)) == Join(Apply(stack, seg));
      NoBase(Apply(stack, seg), rest');
    }
  }

  /** Some ".." meets an empty stack. */
  predicate BaseDropped(stack: seq<Octets>, rest: Octets)
    requires rest == [] || IsPath(rest)
    decreases |rest|
  {
    rest != [] && (Drops(stack, Segment(rest[1..])) || BaseDropped(Apply(stack, Segment(rest[1..])), After(rest)))
  }

  /** The first such ".." is the last segment. */
  predicate DroppedLast(stack: seq<Octets>, rest: Octets)
    requires rest == [] || IsPath(rest)
    decreases |rest|
  {
    rest != [] &&
      if Drops(stack, Segment(rest[1..])) then After(rest) == [] else DroppedLast(Apply(stack, Segment(rest[1..])), After(rest))
  }

  /** The three ways in which a base can end: it stays in front of plain segments, its first byte is left, or
      a simplified path is. */
  lemma {:induction false} OnShape(base: Octets, stack: seq<Octets>, rest: Octets) returns (end: seq<Octets>, tail: Octets)
    requires base != [] && Plain(stack) && (rest == [] || IsPath(rest))
    ensures Plain(end) && (tail == [] || tail == [SLASH])
    ensures var r := ResolveOn(base, stack, rest);
      if DroppedLast(stack, rest) then r == base[..1]
      else if BaseDropped(stack, rest) then IsPath(r) && Simplify(r) == r
      else r == base + (Join(end) + tail)
    decreases |rest|
  {
    hide Join, Segment, After, Simplify, Plain;
    end, tail := stack, [];
    assert Join(stack) + [] == Join(stack);
    if rest == [] { return; }
    var seg, rest' := Segment(rest[1..]), After(rest);
    PlainApply(stack, seg);
    var next := Apply(stack, seg);
    if Drops(stack, seg) {
      if rest' != [] {
        NoBase([], rest');
        SimplifyTwice(rest');
        SimplifyIs(rest');
      }
    } else if rest' == [] && Special(seg) {
      end, tail := next, [SLASH];
      assert !DroppedLast(next, rest') && !BaseDropped(next, rest');
      assert base + Join(next) + [SLASH] == base + (Join(next) + [SLASH]);
    } else {
      end, tail := OnShape(base, next, rest');
    }
  }

  lemma SimplifyIs(p: Octets)
    requires p == [] || IsPath(p)
    ensures Simplify(p) == Resolve([], p)
  {
  }

  /** Plain segments behind a base stay. */
  lemma {:induction false} OnPlain(base: Octets, stack: seq<Octets>, rest: Octets)
    requires (rest == [] || IsPath(rest)) && !Dotted(rest)
    ensures ResolveOn(base, stack, rest) == base + (Join(stack) + rest)
    decreases |rest|
  {
    hide Join, Segment, After;
    if rest == [] {
      assert Join(stack) + [] == Join(stack);
    } else {
      var seg, rest' := Segment(rest[1..]), After(rest);
      ApplyLength(stack, seg);
      if rest' == [] && Special(seg) {
        assert rest == [SLASH] && Apply(stack, seg) == stack;
        assert base + Join(stack) + [SLASH] == base + (Join(stack) + [SLASH]);
      } else {
        OnPlain(base, Apply(stack, seg), rest');
        assert Join(stack) + rest == (Join(stack) + [SLASH] + seg) + rest';
      }
    }
  }

  lemma FirstSegment(tok: Octets, rest: Octets)
    requires tok != [] && SLASH !in tok && (rest == [] || IsPath(rest))
    ensures !IsPath(tok + rest) && Segment(tok + rest) == tok && Behind(tok + rest) == rest
  {
    var p := tok + rest;
    assert p[0] == tok[0] && p[..|tok|] == tok && p[|tok|..] == rest;
    if rest == [] { FindAbsent(p, SLASH); assert p == tok; } else { FindIs(p, SLASH, |tok|); }
  }

  /** The slash in front that the documentation promises is there exactly for paths, for a first segment of
      one letter that is not all, and where a base is dropped before the last segment. */
  lemma StartsWithSlash(p: Octets)
    requires p != []
    ensures var tok, rest := Segment(p), Behind(p);
      IsPath(SimplifyText(p)) <==>
        IsPath(p) || (rest != [] && (|tok| == 1 || (BaseDropped([], rest) && !DroppedLast([], rest))))
  {
    hide Simplify, Segment, ResolveOn, Join;
    var tok, rest := Segment(p), Behind(p);
    if IsPath(p) {
      SimplifyTwice(p);
    } else {
      assert tok != [];
      if rest != [] {
        SimplifyTwice(rest);
        var end, tail := OnShape(tok, [], rest);
      }
    }
  }

  /** A text that has been stripped. */
  predicate IsStripped(p: Octets) { Stripped(p) == p }

  lemma {:induction false} StrippedTwice(s: Octets)
    ensures IsStripped(Stripped(s))
    decreases |s|
  {
    if s != [] && s[0] == SP { StrippedTwice(s[1..]); }
  }

  /** A second run changes nothing unless a base that starts with a dot has been dropped by the last segment. */
  lemma SimplifyAgain(s: Octets)
    ensures var p := Stripped(s); var r := SimplifyText(p); var tok, rest := Segment(p), Behind(p);
      SimplifyText(Stripped(r)) == r <==>
        !(p != [] && !IsPath(p) && |tok| > 1 && DroppedLast([], rest) && tok[0] == DOT)
  {
    hide Simplify, Segment, ResolveOn, Join;
    var p := Stripped(s);
    StrippedTwice(s);
    var r, tok, rest := SimplifyText(p), Segment(p), Behind(p);
    if p == [] || IsPath(p) {
      if p == [] { SimplifyNone(); } else { SimplifyTwice(p); PathStripped(r); }
    } else if rest == [] {
      assert r == p;
    } else if |tok| == 1 {
      SimplifyTwice(rest);
      PathStripped(r);
    } else {
      AgainOn(p, tok, rest);
    }
  }

  lemma SimplifyNone()
    ensures SimplifyText([]) == [] && Simplify([]) == []
  {
    JoinNone();
  }

  lemma PathStripped(r: Octets)
    requires IsPath(r)
    ensures Stripped(r) == r
  {
  }

  lemma AgainOn(p: Octets, tok: Octets, rest: Octets)
    requires IsStripped(p) && p == tok + rest && |tok| > 1 && SLASH !in tok && IsPath(rest)
    ensures var r := ResolveOn(tok, [], rest);
      SimplifyText(Stripped(r)) == r <==> !(DroppedLast([], rest) && tok[0] == DOT)
  {
    hide Simplify, SimplifyText, Segment, Behind, ResolveOn, Join, Dotted, BaseDropped, DroppedLast, Stripped;
    var end, tail := OnShape(tok, [], rest);
    var r := ResolveOn(tok, [], rest);
    assert tok[0] == p[0] && tok[1] == p[1];
    if DroppedLast([], rest) {
      assert r == [tok[0]];
      StartOf(p);
      OneByte(tok[0]);
    } else if BaseDropped([], rest) {
      PathStripped(r);
      PathText(r);
    } else {
      var more := Join(end) + tail;
      PlainJoin(end, tail);
      BaseStays(tok, more);
      BaseStripped(p, tok, rest, more);
    }
  }

  lemma PathText(r: Octets)
    requires IsPath(r)
    ensures SimplifyText(r) == Simplify(r)
  {
  }

  lemma StartOf(p: Octets)
    requires IsStripped(p) && p != []
    ensures p[0] != SP
  {
    if p[0] == SP { StripShorter(p[1..]); }
  }

  /** What is left of a base, stripped and simplified. */
  lemma OneByte(c: Byte)
    requires c != SLASH && c != SP
    ensures SimplifyText(Stripped([c])) == if c == DOT then [] else [c]
  {
    hide Simplify;
    if c == DOT {
      assert Stripped([c]) == [];
      SimplifyNone();
    } else {
      assert [c] + [] == [c];
      FirstSegment([c], []);
    }
  }

  lemma BaseStays(tok: Octets, more: Octets)
    requires |tok| > 1 && SLASH !in tok && (more == [] || (IsPath(more) && !Dotted(more)))
    ensures SimplifyText(tok + more) == tok + more
  {
    hide Simplify, ResolveOn;
    FirstSegment(tok, more);
    assert tok + [] == tok;
    if more != [] {
      OnPlain(tok, [], more);
      JoinNone();
      assert [] + more == more;
    }
  }

  /** A base in front of another path is still stripped. */
  lemma BaseStripped(p: Octets, tok: Octets, rest: Octets, more: Octets)
    requires IsStripped(p) && p == tok + rest && |tok| > 1 && SLASH !in tok && IsPath(rest) && (more == [] || IsPath(more))
    ensures Stripped(tok + more) == tok + more
  {
    var q := tok + more;
    assert q[0] == p[0] && q[1] == p[1] && q[1] != SLASH;
    assert |tok| > 2 ==> q[2] == p[2] == tok[2] != SLASH;
    if p[0] == SP { StripShorter(p[1..]); }
    assert |tok| == 2 ==> p[2] == rest[0];
  }

  lemma StripShorter(s: Octets)
    ensures |Stripped(s)| <= |s|
  {
  }

  // ---------------------------------------------------------------- three texts

  /** "ab" gets no slash in front. */
  lemma NoSlashPut()
    ensures var p := [97, 98]; Stripped(p) == p && SimplifyText(p) == p && !IsPath(SimplifyText(p))
  {
    var p := [97, 98];
    assert p + [] == p;
    FirstSegment(p, []);
  }

  /** "a/b" loses its first segment. */
  lemma LetterLost()
    ensures var p := [97, SLASH, 98]; Stripped(p) == p && SimplifyText(p) == [SLASH, 98]
  {
    var p, rest := [97, SLASH, 98], [SLASH, 98];
    assert p == [97] + rest;
    FirstSegment([97], rest);
    assert rest == [SLASH] + [98] + [];
    SegmentOf([98], []);
    ResolveNone([]);
    JoinNone();
    ResolveLength([], rest);
    assert !Dotted(rest);
  }

  /** ".a/.." becomes ".", and that the empty text. */
  lemma DotLeft()
    ensures var p := [DOT, 97, SLASH, DOT, DOT];
      Stripped(p) == p && SimplifyText(p) == [DOT] && SimplifyText(Stripped([DOT])) == []
  {
    var p, tok, rest := [DOT, 97, SLASH, DOT, DOT], [DOT, 97], [SLASH, DOT, DOT];
    assert p == tok + rest && rest == [SLASH] + [DOT, DOT] + [];
    FirstSegment(tok, rest);
    SegmentOf([DOT, DOT], []);
    assert ResolveOn(tok, [], rest) == tok[..1];
    SimplifyNone();
  }

  // ---------------------------------------------------------------- in place

  /** The text that the loop is given: the string up to a zero byte, without leading spaces and without a
      leading "." or "..". */
  function Stripped(s: Octets): Octets {
    if s != [] && s[0] == SP then Stripped(s[1..])
    else if s == [] || s[0] != DOT then s
    else if |s| == 1 || s[1] == SLASH then s[1..]
    else if s[1] == DOT && (|s| == 2 || s[2] == SLASH) then s[2..]
    else s
  }

  /** The two loops' tests of a complete token see its segment. */
  lemma TokenKind(tok: Octets)
    requires IsPath(tok) && SLASH !in tok[1..]
    ensures tok[1..] == [DOT, DOT] <==> |tok| == 3 && tok[1] == DOT && tok[2] == DOT
    ensures Special(tok[1..]) && tok[1..] != [DOT, DOT] <==> |tok| == 1 || (tok[|tok| - 2] == SLASH && tok[|tok| - 1] == DOT)
  {
    var seg := tok[1..];
    assert forall k :: 0 <= k < |seg| ==> seg[k] == tok[k + 1];
    assert |seg| == 1 ==> seg == [seg[0]];
    assert |seg| == 2 ==> seg == [seg[0], seg[1]];
    assert |tok| > 2 ==> tok[|tok| - 2] == seg[|seg| - 2];
  }

  lemma OneToken(base: Octets, stack: seq<Octets>, tok: Octets, rest: Octets)
    requires IsPath(tok) && SLASH !in tok[1..] && (rest == [] || IsPath(rest))
    ensures IsPath(tok + rest)
    ensures var seg := tok[1..];
      ResolveOn(base, stack, tok + rest) ==
        if rest == [] && Special(seg) then AtLast(base, stack, seg) else ResolveOn(Below(base, stack, seg), Apply(stack, seg), rest)
  {
    SegmentOf(tok[1..], rest);
    assert tok + rest == [SLASH] + tok[1..] + rest;
  }

  lemma PlainApply(stack: seq<Octets>, seg: Octets)
    requires Plain(stack) && SLASH !in seg
    ensures Plain(Apply(stack, seg))
  {
  }

  lemma ResolveNone(stack: seq<Octets>)
    ensures Resolve(stack, []) == Join(stack)
  {
  }

  lemma ResolveOnNone(base: Octets, stack: seq<Octets>)
    ensures ResolveOn(base, stack, []) == base + Join(stack)
  {
  }

  /** The output before the token that is being read. */
  function Text(base: Octets, stack: seq<Octets>): Octets { base + Join(stack) }

  /** A token at the end of a path, and what it makes of the base and the stack. */
  lemma TokenEnds(base: Octets, stack: seq<Octets>, tok: Octets)
    requires IsPath(tok) && SLASH !in tok[1..] && Plain(stack)
    ensures var seg := tok[1..]; var next := Apply(stack, seg);
      && Plain(next) && ResolveOn(base, stack, tok) == (if Special(seg) then AtLast(base, stack, seg) else Text(Below(base, stack, seg), next))
      && (Special(seg) && seg != [DOT, DOT] ==> next == stack && AtLast(base, stack, seg) == Text(base, stack) + [SLASH])
      && (!Special(seg) ==> Text(base, next) == Text(base, stack) + tok)
      && (seg != [DOT, DOT] ==> Below(base, stack, seg) == base)
      && (seg == [DOT, DOT] ==> Special(seg))
  {
    hide ResolveOn, Join, Apply, Plain;
    var seg := tok[1..];
    OneToken(base, stack, tok, []);
    ResolveOnNone(Below(base, stack, seg), Apply(stack, seg));
    assert tok + [] == tok;
    PlainApply(stack, seg);
    ApplyLength(stack, seg);
    assert tok == [SLASH] + seg;
    assert base + (Join(stack) + [SLASH] + seg) == (base + Join(stack)) + tok;
  }

  /** ".." in the output: back to the slash before the last segment, if there is one, and else to the start. */
  method DropSegment(b: array<Byte>, slash: nat, ghost base: Octets, ghost stack: seq<Octets>) returns (out: nat)
    requires slash < b.Length && b[..slash] == Text(base, stack) && Plain(stack) && SLASH !in base && b[slash] == SLASH
    ensures out <= slash && b[..out] == Text(Below(base, stack, [DOT, DOT]), Apply(stack, [DOT, DOT]))
    ensures b[..out + 1] == AtLast(base, stack, [DOT, DOT])
  {
    hide Text, Below, Apply, AtLast, Plain;
    out := slash;
    if out > 0 {
      ghost var k := SegmentStart(b[..slash], base, stack);
      ghost var t := b[..slash];
      assert forall j :: 0 <= j < slash ==> b[j] == t[j];
      out := out - 1;
      while out > 0 && b[out] != SLASH
        invariant k <= out < slash
      {
        assert out > k;
        out := out - 1;
      }
      assert out == k;
      assert b[..k] == t[..k] && b[..k + 1] == t[..k + 1];
    } else {
      NothingDropped(base, stack);
      assert b[..1] == [SLASH];
    }
  }

  lemma NothingDropped(base: Octets, stack: seq<Octets>)
    requires Text(base, stack) == []
    ensures base == [] && stack == [] && AtLast(base, stack, [DOT, DOT]) == [SLASH]
    ensures Text(Below(base, stack, [DOT, DOT]), Apply(stack, [DOT, DOT])) == []
  {
    JoinNone();
  }

  /** Where the last segment of the output starts, with its slash or at the start. */
  lemma SegmentStart(t: Octets, base: Octets, stack: seq<Octets>) returns (k: nat)
    requires t == Text(base, stack) && t != [] && Plain(stack) && SLASH !in base
    ensures k < |t| && (k > 0 ==> t[k] == SLASH) && forall j :: k < j < |t| ==> t[j] != SLASH
    ensures t[..k] == Text(Below(base, stack, [DOT, DOT]), Apply(stack, [DOT, DOT])) && t[..k + 1] == AtLast(base, stack, [DOT, DOT])
  {
    JoinNone();
    if stack == [] {
      k := 0;
      assert base + [] == base;
    } else {
      var init, seg := stack[..|stack| - 1], stack[|stack| - 1];
      JoinLast(stack);
      hide Join;
      k := |base + Join(init)|;
      assert seg in stack && t == (base + Join(init)) + [SLASH] + seg;
      assert forall j :: k < j < |t| ==> t[j] == seg[j - k - 1];
    }
  }

  /** A token is the first segment of a text without slash in front, or starts with its slash. */
  ghost predicate IsToken(tok: Octets, first: bool) {
    if first then tok != [] && SLASH !in tok else IsPath(tok) && SLASH !in tok[1..]
  }

  /** What a complete token makes of the output, at the end of the text and before its end. */
  ghost function Ended(first: bool, base: Octets, stack: seq<Octets>, tok: Octets): Octets
    requires IsToken(tok, first)
  {
    if first then tok else ResolveOn(base, stack, tok)
  }

  ghost function NextBase(first: bool, base: Octets, stack: seq<Octets>, tok: Octets): Octets
    requires IsToken(tok, first)
  {
    if first then (if |tok| == 1 then [] else tok) else Below(base, stack, tok[1..])
  }

  ghost function NextStack(first: bool, stack: seq<Octets>, tok: Octets): seq<Octets>
    requires IsToken(tok, first)
  {
    if first then [] else Apply(stack, tok[1..])
  }

  lemma FirstEnds(b: array<Byte>, tok: Octets)
    requires |tok| <= b.Length && b[..|tok|] == tok && tok != []
    ensures Text(tok, []) == tok && Text([], []) == [] && b[..0] == [] && b[..|tok|] == Text(tok, [])
  {
    JoinNone();
    assert tok + [] == tok;
  }

  /** A complete token, from slash to out, is kept or resolved away; at the end of the text a slash stays. */
  method FinishToken(b: array<Byte>, slash: nat, out0: nat, pre2: Byte, pre1: Byte, end: bool,
                     ghost first: bool, ghost base: Octets, ghost stack: seq<Octets>)
    returns (out: nat)
    requires slash < out0 <= b.Length && b[..slash] == Text(base, stack) && Plain(stack) && SLASH !in base
    requires IsToken(b[slash..out0], first) && (first ==> slash == 0)
    requires pre1 == b[out0 - 1] && (out0 - slash >= 2 ==> pre2 == b[out0 - 2])
    ensures out <= out0
    ensures var tok := b[slash..out0];
      b[..out] == if end then Ended(first, base, stack, tok) else Text(NextBase(first, base, stack, tok), NextStack(first, stack, tok))
  {
    hide ResolveOn, Text, Apply, Special, Plain, Below, AtLast;
    ghost var tok := b[slash..out0];
    if !first {
      TokenKind(tok);
      TokenEnds(base, stack, tok);
    } else {
      assert b[..out0] == tok && (|tok| >= 2 ==> tok[|tok| - 2] == b[out0 - 2]);
      FirstEnds(b, tok);
    }
    out := out0;
    var toklen := out - slash;
    if toklen == 3 && pre2 == DOT && pre1 == DOT && b[slash] == SLASH {
      out := DropSegment(b, slash, base, stack);
      if end { out := out + 1; }
    } else if toklen == 1 || (pre2 == SLASH && pre1 == DOT) {
      out := slash;
      if end {
        out := out + 1;
        assert b[..out] == b[..slash] + [b[slash]];
      }
    } else {
      assert b[..out] == b[..slash] + tok;
    }
  }

  /** What one iteration does once the byte is written: with c, the next one, the token may be complete. */
  method Token(b: array<Byte>, slash0: nat, out0: nat, pre2: Byte, pre1: Byte, c: Byte,
               ghost p: Octets, ghost i: nat, ghost tok: Octets, ghost base: Octets, ghost stack: seq<Octets>)
    returns (out: nat, slash: nat, ghost below: Octets, ghost next: seq<Octets>)
    requires NUL !in p && Reading(p, i, tok, base, stack) && pre1 == p[i] && c == (p + [NUL])[i + 1]
    requires slash0 < out0 <= b.Length && b[slash0..out0] == tok + [pre1] && (tok != [] ==> pre2 == b[out0 - 2])
    requires b[..slash0] == Text(base, stack)
    ensures slash <= out <= out0
    ensures c == NUL ==> b[..out] == SimplifyText(p)
    ensures c != NUL ==> b[..slash] == Text(below, next)
    ensures c != NUL ==> Reading(p, i + 1, b[slash..out], below, next) && (out > slash ==> pre1 == b[out - 1])
  {
    hide SimplifyText, Reading, Text, Plain, IsToken, Ended, NextBase, NextStack;
    InToken(p, i, tok, base, stack);
    FirstHas(p, i, tok, base, stack, slash0);
    ReadOn(p, i, tok, base, stack);
    ghost var first := OnFirst(p, i, tok);
    out, slash, below, next := out0, slash0, base, stack;
    if c == SLASH || c == NUL {
      below, next := NextBase(first, base, stack, tok + [pre1]), NextStack(first, stack, tok + [pre1]);
      out := FinishToken(b, slash, out, pre2, pre1, c == NUL, first, base, stack);
      slash := out;
      assert b[slash..out] == [];
    }
  }

  /** The first segment of a text without slash in front is being read. */
  ghost predicate OnFirst(p: Octets, i: nat, tok: Octets) { |tok| == i && !IsPath(p) }

  lemma FirstHas(p: Octets, i: nat, tok: Octets, base: Octets, stack: seq<Octets>, slash: nat)
    requires Reading(p, i, tok, base, stack) && slash == |Text(base, stack)|
    ensures OnFirst(p, i, tok) ==> slash == 0
    ensures Plain(stack) && SLASH !in base
  {
    JoinNone();
  }

  lemma InToken(p: Octets, i: nat, tok: Octets, base: Octets, stack: seq<Octets>)
    requires Reading(p, i, tok, base, stack) && NUL !in p
    ensures i < |p| && |tok| <= i && ((p + [NUL])[i + 1] == NUL <==> i + 1 == |p|)
    ensures i + 1 < |p| ==> (p + [NUL])[i + 1] == p[i + 1]
  {
  }

  /** Where the loop starts reading. */
  method Strip(b: array<Byte>, n: nat) returns (walk: nat)
    requires n < b.Length && b[n] == NUL
    ensures var s := CString(b[..n]); walk <= |s| && Stripped(s) == s[walk..]
  {
    ghost var s := CString(b[..n]);
    walk := 0;
    assert forall k :: 0 <= k < |s| ==> b[k] == s[k] && s[k] != NUL by { Terminated(b, n); }
    assert b[|s|] == NUL by { Terminated(b, n); }
    assert s[0..] == s;
    while b[walk] == SP
      invariant walk <= |s| && Stripped(s) == Stripped(s[walk..])
      decreases |s| - walk
    {
      walk := walk + 1;
    }
    ghost var t := s[walk..];
    assert forall k :: 0 <= k < |t| ==> t[k] == b[walk + k];
    if b[walk] == DOT {
      if b[walk + 1] == SLASH || b[walk + 1] == NUL {
        walk := walk + 1;
      } else if b[walk + 1] == DOT && (b[walk + 2] == SLASH || b[walk + 2] == NUL) {
        walk := walk + 2;
      }
    }
    assert Stripped(s) == s[walk..];
  }

  lemma Terminated(b: array<Byte>, n: nat)
    requires n < b.Length && b[n] == NUL
    ensures var s := CString(b[..n]);
      |s| <= n && b[|s|] == NUL && forall k :: 0 <= k < |s| ==> b[k] == s[k] && s[k] != NUL
  {
    var s := CString(b[..n]);
    assert forall k :: 0 <= k < |s| ==> s[k] in s;
    if |s| < n { assert b[..n][|s|] == NUL; }
  }

  lemma RestOfString(b: array<Byte>, n: nat, walk: nat)
    requires n < b.Length && b[n] == NUL && walk <= |CString(b[..n])|
    ensures var p := CString(b[..n])[walk..]; walk + |p| <= n && b[walk..walk + |p| + 1] == p + [NUL] && NUL !in p
  {
    Terminated(b, n);
    var s := CString(b[..n]);
    forall k | 0 <= k < |s| - walk ensures s[walk..][k] == b[walk + k] != NUL { assert b[walk + k] == s[walk + k]; }
  }

  /** The byte at walk is read, then pre1 put at out, possibly in its place. */
  method Shift(b: array<Byte>, ghost slash: nat, out: nat, walk: nat, ghost end: nat, pre1: Byte) returns (c: Byte)
    requires slash <= out <= walk < end <= b.Length
    modifies b
    ensures c == old(b[walk..end])[0] && b[walk + 1..end] == old(b[walk..end])[1..] && b[end..] == old(b[end..])
    ensures b[..slash] == old(b[..slash]) && b[slash..out + 1] == old(b[slash..out]) + [pre1] && b[out] == pre1
    ensures out > slash ==> b[out - 1] == old(b[out - 1])
  {
    c := b[walk];
    b[out] := pre1;
  }

  /** What is in the output before byte i: the resolved segments and the token being read; at the end of the
      text, all of it. */
  ghost predicate Loop(p: Octets, i: nat, done: Octets, tok: Octets, base: Octets, stack: seq<Octets>, pre1: Byte, c: Byte) {
    && (c == NUL ==> done + tok == SimplifyText(p))
    && (c != NUL ==> done == Text(base, stack) && Reading(p, i, tok, base, stack) && (tok != [] ==> pre1 == tok[|tok| - 1]))
  }

  lemma InLoop(p: Octets, i: nat, done: Octets, tok: Octets, base: Octets, stack: seq<Octets>, pre1: Byte, c: Byte)
    requires Loop(p, i, done, tok, base, stack, pre1, c) && c != NUL
    ensures i < |p| && done == Text(base, stack) && Reading(p, i, tok, base, stack) && (tok != [] ==> pre1 == tok[|tok| - 1])
  {
  }

  lemma AtEnd(p: Octets, i: nat, done: Octets, tok: Octets, base: Octets, stack: seq<Octets>, pre1: Byte, c: Byte)
    requires Loop(p, i, done, tok, base, stack, pre1, c) && c == NUL
    ensures done + tok == SimplifyText(p)
  {
  }

  /** One iteration of the loop. */
  method TakeByte(b: array<Byte>, slash0: nat, out0: nat, walk: nat, ghost end: nat, pre1: Byte, c0: Byte,
                  ghost p: Octets, ghost text: Octets, ghost i: nat, ghost base0: Octets, ghost stack0: seq<Octets>)
    returns (out: nat, slash: nat, pre: Byte, c: Byte, ghost base: Octets, ghost stack: seq<Octets>)
    requires NUL !in p && text == p + [NUL] && i < |p| && slash0 <= out0 < walk < end <= b.Length
    requires c0 == p[i] && b[walk..end] == text[i + 1..] && b[..slash0] == Text(base0, stack0)
    requires Reading(p, i, b[slash0..out0], base0, stack0) && (out0 > slash0 ==> pre1 == b[out0 - 1])
    modifies b
    ensures slash <= out <= out0 + 1 && c == text[i + 1] && b[walk + 1..end] == text[i + 2..] && b[end..] == old(b[end..])
    ensures Loop(p, i + 1, b[..slash], b[slash..out], base, stack, pre, c)
  {
    hide SimplifyText, Reading, Text, Plain;
    ghost var tok := b[slash0..out0];
    pre := c0;
    c := Shift(b, slash0, out0, walk, end, pre);
    assert text[i + 1..][1..] == text[i + 2..] && text[i + 1..][0] == text[i + 1];
    out, slash, base, stack := Token(b, slash0, out0 + 1, pre1, pre, c, p, i, tok, base0, stack0);
    assert b[..slash] + b[slash..out] == b[..out];
  }

  /** buffer_path_simplify on one buffer: the string of n bytes in b is replaced by its simplified form.  The
      output never passes the position that is read next. */
  method SimplifyInPlace(b: array<Byte>, n: nat) returns (m: nat)
    requires n < b.Length && b[n] == NUL
    modifies b
    ensures m <= n && b[..m] == SimplifyText(Stripped(CString(old(b[..n])))) && b[m] == NUL
    ensures b[n + 1..] == old(b[n + 1..])
  {
    hide Loop, SimplifyText, Stripped, CString;
    var walk := Strip(b, n);
    ghost var p := Stripped(CString(b[..n]));
    RestOfString(b, n, walk);
    ghost var end := walk + |p| + 1;
    m := SimplifyFrom(b, walk, p);
    assert b[n + 1..] == b[end..][n + 1 - end..];
  }

  /** The loop of buffer_path_simplify over the text p, which starts at walk0. */
  method SimplifyFrom(b: array<Byte>, walk0: nat, ghost p: Octets) returns (m: nat)
    requires NUL !in p && walk0 + |p| < b.Length && b[walk0..walk0 + |p| + 1] == p + [NUL]
    modifies b
    ensures m <= walk0 + |p| && b[..m] == SimplifyText(p) && b[m] == NUL && b[walk0 + |p| + 1..] == old(b[walk0 + |p| + 1..])
  {
    hide Loop, SimplifyText, Reading, Text, Plain;
    ghost var base: Octets, stack: seq<Octets>, text, i, end := [], [], p + [NUL], 0, walk0 + |p| + 1;
    var walk := walk0;
    assert b[walk..end][0] == text[0];
    StartLoop(p, b[walk]);
    var out: nat, slash: nat := 0, 0;
    var pre1, c := NUL, b[walk];
    walk := walk + 1;
    while c != NUL
      invariant i <= |p| && walk == end - |p| + i && c == text[i] && b[walk..end] == text[i + 1..]
      invariant slash <= out < walk && b[end..] == old(b[end..])
      invariant Loop(p, i, b[..slash], b[slash..out], base, stack, pre1, c)
      decreases |p| - i
    {
      InLoop(p, i, b[..slash], b[slash..out], base, stack, pre1, c);
      out, slash, pre1, c, base, stack := TakeByte(b, slash, out, walk, end, pre1, c, p, text, i, base, stack);
      walk := walk + 1;
      i := i + 1;
    }
    AtEnd(p, i, b[..slash], b[slash..out], base, stack, pre1, c);
    assert b[..out] == b[..slash] + b[slash..out];
    b[out] := NUL;
    m := out;
  }

  /** The part of p before i that is not resolved yet is the token read so far.  Either that is the first
      segment of a text without slash in front, or the token and the rest of p will be resolved on top of base
      and stack. */
  ghost predicate Reading(p: Octets, i: nat, tok: Octets, base: Octets, stack: seq<Octets>) {
    && i < |p| && |tok| <= i && tok == p[i - |tok|..i] && Plain(stack) && SLASH !in base
    && if OnFirst(p, i, tok) then base == [] && stack == [] && SLASH !in tok && p[i] != SLASH
       else
         && IsPath(p[i - |tok|..]) && ResolveOn(base, stack, p[i - |tok|..]) == SimplifyText(p)
         && (tok != [] ==> SLASH !in tok[1..] && p[i] != SLASH)
  }

  lemma StartLoop(p: Octets, c: Byte)
    requires c == At(p, 0) && NUL !in p
    ensures Loop(p, 0, [], [], [], [], NUL, c)
  {
    JoinNone();
    SimplifyNone();
    if IsPath(p) {
      NoBase([], p);
      SimplifyIs(p);
      assert p[0..] == p;
    }
    hide ResolveOn, Join, SimplifyText;
  }

  /** One more byte of the token; it may complete the token or the text. */
  lemma ReadOn(p: Octets, i: nat, tok: Octets, base: Octets, stack: seq<Octets>)
    requires Reading(p, i, tok, base, stack)
    ensures var more, first := tok + [p[i]], OnFirst(p, i, tok);
      && IsToken(more, first)
      && (i + 1 == |p| ==> Ended(first, base, stack, more) == SimplifyText(p))
      && (i + 1 < |p| && p[i + 1] == SLASH ==>
            Reading(p, i + 1, [], NextBase(first, base, stack, more), NextStack(first, stack, more)))
      && (i + 1 < |p| && p[i + 1] != SLASH ==> Reading(p, i + 1, more, base, stack))
  {
    hide ResolveOn, Apply, Special, SimplifyText, Plain, Below;
    if OnFirst(p, i, tok) { ReadFirst(p, i, tok); } else { ReadPath(p, i, tok, base, stack); }
  }

  lemma ReadFirst(p: Octets, i: nat, tok: Octets)
    requires i < |p| && |tok| == i && tok == p[..i] && !IsPath(p) && SLASH !in tok && p[i] != SLASH
    ensures var more := tok + [p[i]];
      && SLASH !in more && more == p[..i + 1]
      && (i + 1 == |p| ==> SimplifyText(p) == more)
      && (i + 1 < |p| && p[i + 1] == SLASH ==>
            Reading(p, i + 1, [], NextBase(true, [], [], more), NextStack(true, [], more)))
      && (i + 1 < |p| && p[i + 1] != SLASH ==> Reading(p, i + 1, more, [], []))
  {
    hide ResolveOn, Simplify;
    var more, rest := tok + [p[i]], p[i + 1..];
    assert p == more + rest;
    if i + 1 == |p| || p[i + 1] == SLASH {
      FirstSegment(more, rest);
      if rest != [] && |more| == 1 {
        NoBase([], rest);
        SimplifyIs(rest);
      }
    }
  }

  lemma ReadPath(p: Octets, i: nat, tok: Octets, base: Octets, stack: seq<Octets>)
    requires Reading(p, i, tok, base, stack) && !OnFirst(p, i, tok)
    ensures var more := tok + [p[i]];
      && IsToken(more, false)
      && (i + 1 == |p| ==> ResolveOn(base, stack, more) == SimplifyText(p))
      && (i + 1 < |p| && p[i + 1] == SLASH ==> Reading(p, i + 1, [], Below(base, stack, more[1..]), Apply(stack, more[1..])))
      && (i + 1 < |p| && p[i + 1] != SLASH ==> Reading(p, i + 1, more, base, stack))
  {
    hide ResolveOn, Apply, Special, SimplifyText, Plain;
    MoreToken(p, i, tok);
    var more, rest := tok + [p[i]], p[i + 1..];
    if i + 1 == |p| {
      assert more + rest == more;
    } else if p[i + 1] == SLASH {
      OneToken(base, stack, more, rest);
      PlainApply(stack, more[1..]);
    }
  }

  lemma MoreToken(p: Octets, i: nat, tok: Octets)
    requires i < |p| && |tok| <= i && tok == p[i - |tok|..i] && IsPath(p[i - |tok|..])
    requires tok != [] ==> SLASH !in tok[1..] && p[i] != SLASH
    ensures var more := tok + [p[i]];
      p[i - |tok|..] == more + p[i + 1..] && more == p[i - |tok|..i + 1] && IsPath(more) && SLASH !in more[1..]
  {
    var more := tok + [p[i]];
    assert more[1..] == if tok == [] then [] else tok[1..] + [p[i]];
  }

  // ---------------------------------------------------------------- the scan

  /** One segment of the path that starts at the slash at a; it ends at k. */
  lemma DottedStep(p: Octets, a: nat, k: nat)
    requires a < k <= |p| && p[a] == SLASH && SLASH !in p[a + 1..k] && (k < |p| ==> p[k] == SLASH)
    ensures var seg := p[a + 1..k];
      IsPath(p[a..]) && (p[k..] == [] || IsPath(p[k..])) &&
      (Dotted(p[a..]) <==> (Special(seg) && !(seg == [] && k == |p|)) || Dotted(p[k..]))
  {
    SegmentOf(p[a + 1..k], p[k..]);
    assert p[a..] == [SLASH] + p[a + 1..k] + p[k..];
  }

  predicate Ends(c: Byte) { c == SLASH || c == QUESTION || c == NUL }

  /** What the scan looks for: a segment "." or "..", or an empty one that is not the last, a first segment
      without slash included. */
  predicate ScanFinds(p: Octets) {
    if p == [] || IsPath(p) then Dotted(p) else Dotted([SLASH] + p)
  }

  /** In a path that is what simplification would change. */
  lemma ScanExact(p: Octets)
    requires IsPath(p)
    ensures ScanFinds(p) <==> Simplify(p) != p
    ensures SimplifyText(Stripped(p)) == Simplify(p)
  {
    DottedExact(p);
  }

  /** Otherwise something may change that it does not look for: the scan passes over "a/b". */
  lemma ScanPasses()
    ensures var p := [97, SLASH, 98]; !ScanFinds(p) && SimplifyText(Stripped(p)) != p
  {
    var p, rest := [97, SLASH, 98], [SLASH, 98];
    LetterLost();
    assert [SLASH] + p == [SLASH] + [97] + rest && rest == [SLASH] + [98] + [];
    SegmentOf([97], rest);
    SegmentOf([98], []);
    assert !Dotted(rest);
  }

  /** The scan of burl_normalize_path over the path, which is the first len bytes of s. */
  method NeedsSimplify(s: Octets, len: nat) returns (r: bool)
    requires len <= |s| && NUL !in s[..len] && QUESTION !in s[..len]
    requires len < |s| ==> s[len] == QUESTION
    ensures r <==> ScanFinds(s[..len])
  {
    hide Dotted, Special, ScanFinds, AtSegment, IsPath, DottedFrom, PlainAt;
    ghost var t := s[..len];
    ghost var (p, o) := Slashed(t);
    ScanStart(t, p, o);
    var i := 0;
    ghost var a := 0;
    while i < len
      invariant 0 <= i <= len + 1 && (i == len + 1 ==> !Dotted(p))
      invariant i <= len ==> AtSegment(p, a, i + o) && DottedFrom(p, a)
      decreases len - i
    {
      ghost var start := i;
      var found;
      found, i := DotsAt(s, len, i, p, o, a);
      if found { return true; }
      i := SkipToSlash(s, len, start, i);
      InFront(s, len, p, o, start, i);
      NextSegment(p, a, start + o, i + o);
      a := i + o;
      if At(s, i) == SLASH && At(s, i + 1) == SLASH {
        EmptySegment(p, i + o);
        return true;
      }
      AfterSlash(p, a);
      i := i + 1;
    }
    if i == len { LastSlash(p, a); }
    r := false;
  }

  /** The text with a slash in front, and how many bytes that adds. */
  ghost function Slashed(t: Octets): (r: (Octets, nat)) {
    if IsPath(t) then (t, 0) else ([SLASH] + t, 1)
  }

  /** From a on the text is dotted if it is at all. */
  ghost predicate DottedFrom(p: Octets, a: nat) {
    IsPath(p) && a <= |p| && (a == |p| || p[a] == SLASH) && Dotted(p) == Dotted(p[a..])
  }

  lemma ScanStart(t: Octets, p: Octets, o: nat)
    requires (p, o) == Slashed(t)
    ensures IsPath(p) && ScanFinds(t) == Dotted(p) && AtSegment(p, 0, o) && DottedFrom(p, 0) && p[o..] == t
  {
    hide Dotted;
    assert p[0..] == p;
    if t == [] {
      assert p == [SLASH];
      OneSlash();
      NoneLeft(t);
    }
  }

  lemma OneSlash()
    ensures !Dotted([SLASH])
  {
    assert [SLASH] == [SLASH][0..];
    DottedStep([SLASH], 0, 1);
  }

  /** What the scan has passed over, in the text with a slash in front. */
  lemma InFront(s: Octets, len: nat, p: Octets, o: nat, from: nat, to: nat)
    requires o <= |p| && len <= |s| && p[o..] == s[..len] && from <= to <= len && SLASH !in s[..len][from..to]
    requires to < len ==> s[to] == SLASH
    requires len < |s| ==> s[len] == QUESTION
    ensures SLASH !in p[from + o..to + o] && |p| == len + o && (to + o < |p| ==> p[to + o] == SLASH)
    ensures At(s, to) == SLASH && At(s, to + 1) == SLASH <==> to + o + 1 < |p| && p[to + o + 1] == SLASH
  {
    SliceBehind(p, o, from, to);
    assert to < len ==> p[to + o] == p[o..][to];
    assert to + 1 < len ==> p[to + 1 + o] == p[o..][to + 1];
  }

  lemma SliceBehind(p: Octets, o: nat, from: nat, to: nat)
    requires o <= |p| && from <= to <= |p[o..]|
    ensures p[from + o..to + o] == p[o..][from..to]
  {
    assert |p[from + o..to + o]| == |p[o..][from..to]|;
    forall k | 0 <= k < to - from ensures p[from + o..to + o][k] == p[o..][from..to][k] {
      assert p[o..][from + k] == p[o + (from + k)];
    }
  }

  lemma NextSegment(p: Octets, a: nat, from: nat, to: nat)
    requires AtSegment(p, a, from) && DottedFrom(p, a) && from <= to <= |p| && SLASH !in p[from..to] && (to < |p| ==> p[to] == SLASH)
    requires PlainAt(p, from)
    ensures DottedFrom(p, to)
  {
    hide Dotted;
    if from > 0 {
      assert to > from || from == |p|;
      if to > from { OtherSegment(p, a, to); } else { AtLastSlash(p, a); }
      assert to == |p| ==> p[to..] == [];
      NoneLeft(p[to..]);
    }
  }

  /** No segment "." or ".." starts at i. */
  ghost predicate PlainAt(p: Octets, i: nat) {
    0 < i < |p| && p[i] == DOT ==> i + 1 < |p| && p[i + 1] != SLASH && (p[i + 1] == DOT ==> i + 2 < |p| && p[i + 2] != SLASH)
  }

  lemma AtLastSlash(p: Octets, a: nat)
    requires DottedFrom(p, a) && a + 1 == |p|
    ensures !Dotted(p)
  {
    DottedStep(p, a, |p|);
  }

  lemma AfterSlash(p: Octets, k: nat)
    requires DottedFrom(p, k) && !(k + 1 < |p| && p[k + 1] == SLASH)
    ensures if k == |p| then !Dotted(p) else AtSegment(p, k, k + 1)
  {
    NoneLeft(p[k..]);
  }

  /** The test for "." and ".." at the start of a segment; a second dot is passed over. */
  method DotsAt(s: Octets, len: nat, from: nat, ghost p: Octets, ghost o: nat, ghost a: nat) returns (found: bool, i: nat)
    requires from < len <= |s| && NUL !in s[..len] && QUESTION !in s[..len] && (len < |s| ==> s[len] == QUESTION)
    requires o <= |p| && p[o..] == s[..len] && AtSegment(p, a, from + o) && DottedFrom(p, a)
    ensures from <= i < len && SLASH !in s[from..i] && (found ==> Dotted(p)) && (!found ==> PlainAt(p, from + o))
  {
    hide Dotted;
    ByteOf(s, len, from, p, o);
    ByteOf(s, len, from + 1, p, o);
    if from + 2 <= len { ByteOf(s, len, from + 2, p, o); }
    i := from;
    found := false;
    if At(s, i) == DOT {
      if At(s, i + 1) == DOT { i := i + 1; }
      if Ends(At(s, i + 1)) {
        DotSegment(p, a, i + 1 + o);
        found := true;
      }
    }
  }

  /** The byte at k is that of p, and neither ends the path. */
  lemma ByteOf(s: Octets, len: nat, k: nat, p: Octets, o: nat)
    requires k <= len <= |s| && NUL !in s[..len] && QUESTION !in s[..len] && o <= |p| && p[o..] == s[..len]
    ensures |p| == o + len && (k < len ==> p[k + o] == s[k] && s[k] != NUL && s[k] != QUESTION)
  {
    if k < len { assert p[o..][k] == s[..len][k] && s[k] in s[..len]; }
  }

  /** The inner loop of the scan. */
  method SkipToSlash(s: Octets, len: nat, ghost start: nat, from: nat) returns (i: nat)
    requires start <= from <= len <= |s| && SLASH !in s[start..from]
    ensures from <= i <= len && SLASH !in s[..len][start..i] && (i < len ==> s[i] == SLASH)
  {
    i := from;
    assert s[..len][start..from] == s[start..from];
    while i < len && At(s, i) != SLASH
      invariant from <= i <= len && SLASH !in s[..len][start..i]
    {
      assert s[..len][start..i + 1] == s[..len][start..i] + [s[i]];
      i := i + 1;
    }
  }

  /** The scan stands at i, at the path's start or behind the slash at a. */
  ghost predicate AtSegment(p: Octets, a: nat, i: nat) {
    a < |p| && p[a] == SLASH && (i == a == 0 || (i == a + 1 && (i < |p| ==> p[i] != SLASH)))
  }

  lemma DotSegment(p: Octets, a: nat, k: nat)
    requires a + 1 < k <= |p| && p[a] == SLASH && p[a + 1] == DOT && (k == a + 2 || (k == a + 3 && p[a + 2] == DOT))
    requires k < |p| ==> p[k] == SLASH
    ensures IsPath(p[a..]) && Dotted(p[a..])
  {
    var seg := p[a + 1..k];
    assert seg == [DOT] || seg == [DOT, DOT];
    DottedStep(p, a, k);
  }

  lemma EmptySegment(p: Octets, i: nat)
    requires i + 1 < |p| && p[i + 1] == SLASH && DottedFrom(p, i)
    ensures Dotted(p)
  {
    assert p[i + 1..i + 1] == [];
    DottedStep(p, i, i + 1);
  }

  lemma OtherSegment(p: Octets, a: nat, k: nat)
    requires a + 1 < k <= |p| && p[a] == SLASH && SLASH !in p[a + 1..k] && (k < |p| ==> p[k] == SLASH)
    requires p[a + 1] == DOT ==> k > a + 2 && (p[a + 2] == DOT ==> k > a + 3)
    ensures IsPath(p[a..]) && (p[k..] == [] || IsPath(p[k..])) && Dotted(p[a..]) == Dotted(p[k..])
  {
    var seg := p[a + 1..k];
    assert seg[0] == p[a + 1] && (|seg| > 1 ==> seg[1] == p[a + 2]);
    DottedStep(p, a, k);
  }

  lemma NoneLeft(rest: Octets)
    requires rest == [] || IsPath(rest)
    ensures rest == [] ==> !Dotted(rest)
  {
  }

  lemma LastSlash(p: Octets, a: nat)
    requires AtSegment(p, a, |p|) && DottedFrom(p, a)
    ensures !Dotted(p)
  {
    AtLastSlash(p, a);
  }
}
