/** The segments of a simplified text: what simplification and the scan promise about "." and "..", said of the
    bytes between slashes. */
module PathSegments {
  import opened Bytes
  import opened PathSimplify

  /** The text is pre, then seg, then post, and slashes or the text's ends are around seg. */
  ghost predicate Between(t: Octets, pre: Octets, seg: Octets, post: Octets) {
    t == pre + seg + post && (pre == [] || pre[|pre| - 1] == SLASH) && (post == [] || post[0] == SLASH)
  }

  /** Between two slashes, or a slash and an end, or the ends, stands seg. */
  ghost predicate HasSegment(t: Octets, seg: Octets) { exists pre, post :: Between(t, pre, seg, post) }

  /** A segment without bytes that is not the last one. */
  ghost predicate HasGap(t: Octets) { exists pre, post :: Between(t, pre, [], post) && post != [] }

  // ---------------------------------------------------------------- segments one by one

  lemma First(tok: Octets, rest: Octets, pre: Octets, seg: Octets, post: Octets)
    requires SLASH !in tok && SLASH !in seg && (rest == [] || IsPath(rest)) && Between(tok + rest, pre, seg, post)
    ensures pre == [] ==> seg == tok && post == rest
    ensures pre != [] ==> rest != [] && |pre| > |tok| && Between(rest[1..], pre[|tok| + 1..], seg, post)
  {
    var t := tok + rest;
    if pre == [] {
      var all := seg + post;
      assert t == all && |seg| <= |t|;
      assert t[..|tok|] == tok && all[..|seg|] == seg && t[|tok|..] == rest && all[|seg|..] == post;
    } else {
      assert t[|pre| - 1] == pre[|pre| - 1];
      assert rest[1..] == t[|tok| + 1..] == pre[|tok| + 1..] + seg + post;
      if |pre| > |tok| + 1 { assert pre[|tok| + 1..][|pre| - |tok| - 2] == pre[|pre| - 1]; }
    }
  }

  /** A text's segments are its first one and those behind the slash. */
  lemma SegmentsOf(tok: Octets, rest: Octets, seg: Octets)
    requires SLASH !in tok && SLASH !in seg && (rest == [] || IsPath(rest))
    ensures HasSegment(tok + rest, seg) <==> seg == tok || (rest != [] && HasSegment(rest[1..], seg))
    ensures HasGap(tok + rest) <==> rest != [] && (tok == [] || HasGap(rest[1..]))
  {
    hide Between;
    forall pre, post | Between(tok + rest, pre, seg, post) ensures seg == tok || (rest != [] && HasSegment(rest[1..], seg)) {
      First(tok, rest, pre, seg, post);
    }
    forall pre, post | Between(tok + rest, pre, [], post) && post != [] ensures rest != [] && (tok == [] || HasGap(rest[1..])) {
      First(tok, rest, pre, [], post);
    }
    FirstIs(tok, rest);
    if rest != [] {
      forall pre, x, post | Between(rest[1..], pre, x, post) ensures Between(tok + rest, tok + [SLASH] + pre, x, post) {
        Behind1(tok, rest, pre, x, post);
      }
    }
  }

  lemma FirstIs(tok: Octets, rest: Octets)
    requires rest == [] || IsPath(rest)
    ensures Between(tok + rest, [], tok, rest)
  {
    assert [] + tok + rest == tok + rest;
  }

  lemma Behind1(tok: Octets, rest: Octets, pre: Octets, seg: Octets, post: Octets)
    requires IsPath(rest) && Between(rest[1..], pre, seg, post)
    ensures Between(tok + rest, tok + [SLASH] + pre, seg, post)
  {
    assert rest == [SLASH] + rest[1..];
    assert tok + rest == (tok + [SLASH] + pre) + seg + post;
  }

  lemma OneSegment(tok: Octets, seg: Octets)
    requires SLASH !in tok && SLASH !in seg
    ensures HasSegment(tok, seg) <==> seg == tok
    ensures !HasGap(tok)
  {
    SegmentsOf(tok, [], seg);
    assert tok + [] == tok;
  }

  /** A base and a stack of segments. */
  lemma {:induction false} JoinSegments(base: Octets, stack: seq<Octets>, tail: Octets, seg: Octets)
    requires SLASH !in base && (forall x :: x in stack ==> SLASH !in x) && (tail == [] || tail == [SLASH]) && SLASH !in seg && seg != []
    ensures HasSegment(base + (Join(stack) + tail), seg) <==> seg == base || seg in stack
    decreases |stack|
  {
    hide HasSegment, HasGap, Join;
    var more := Join(stack) + tail;
    if stack == [] {
      JoinNone();
      assert more == tail;
      SegmentsOf(base, tail, seg);
      if tail != [] { assert tail[1..] == []; OneSegment([], seg); }
    } else {
      JoinFront(stack);
      var rest := Join(stack[1..]) + tail;
      assert more == [SLASH] + (stack[0] + rest) && more[1..] == stack[0] + rest;
      SegmentsOf(base, more, seg);
      assert stack == [stack[0]] + stack[1..];
      JoinSegments(stack[0], stack[1..], tail, seg);
    }
  }

  // ---------------------------------------------------------------- simplified texts

  lemma Dots()
    ensures Ascii("..") == [DOT, DOT] && Ascii(".") == [DOT] && SLASH !in Ascii("..") && SLASH !in Ascii(".") && Ascii("/") == [SLASH]
  {
  }

  lemma SimplifiedPath(p: Octets, seg: Octets)
    requires (p == [] || IsPath(p)) && Special(seg) && seg != []
    ensures !HasSegment(Simplify(p), seg)
  {
    hide Resolve, HasSegment;
    var end, tail := ResolvedShape([], p);
    assert [] + (Join(end) + tail) == Join(end) + tail;
    JoinSegments([], end, tail, seg);
    assert Plain(end);
  }

  /** A stripped text does not begin with a segment "." or "..". */
  lemma StrippedFirst(s: Octets)
    ensures var p := Stripped(s); var tok := Segment(p); tok != [DOT] && tok != [DOT, DOT]
  {
    StrippedTwice(s);
    var p := Stripped(s);
    var tok := Segment(p);
    if p != [] { StartOf(p); }
    assert tok == p[..|tok|];
  }

  /** When a first segment that starts with a dot is dropped by the last one, the dot is left. */
  ghost predicate DotLast(p: Octets) {
    p != [] && p[0] == DOT && |Segment(p)| > 1 && DroppedLast([], Behind(p))
  }

  lemma NoToken(p: Octets)
    requires IsPath(p)
    ensures Segment(p) == []
  {
  }

  lemma FirstByte(p: Octets)
    requires p != [] && !IsPath(p)
    ensures Segment(p) != [] && Segment(p)[0] == p[0]
  {
  }

  lemma NoneDropped()
    ensures !DroppedLast([], [])
  {
  }

  lemma BaseSegments(tok: Octets, rest: Octets)
    requires |tok| > 1 && SLASH !in tok && tok != [DOT, DOT] && IsPath(rest)
    ensures var r := ResolveOn(tok, [], rest);
      !HasSegment(r, [DOT, DOT]) && (HasSegment(r, [DOT]) <==> DroppedLast([], rest) && tok[0] == DOT)
  {
    hide Simplify, Segment, ResolveOn, DroppedLast, BaseDropped, HasSegment, Join;
    var r := ResolveOn(tok, [], rest);
    var end, tail := OnShape(tok, [], rest);
    if DroppedLast([], rest) {
      assert tok[..1] == [tok[0]];
      OneSegment(r, [DOT]);
      OneSegment(r, [DOT, DOT]);
    } else if BaseDropped([], rest) {
      SimplifiedPath(r, [DOT]);
      SimplifiedPath(r, [DOT, DOT]);
    } else {
      JoinSegments(tok, end, tail, [DOT]);
      JoinSegments(tok, end, tail, [DOT, DOT]);
    }
  }

  /** No simplified text has a segment "..", and only in one case has one a segment ".". */
  lemma NoDots(s: Octets)
    ensures var p := Stripped(s); var r := SimplifyText(p);
      !HasSegment(r, Ascii("..")) && (HasSegment(r, Ascii(".")) <==> DotLast(p))
  {
    hide Simplify, Segment, Behind, ResolveOn, DroppedLast, BaseDropped, HasSegment, Stripped, Ascii, Join;
    Dots();
    var p := Stripped(s);
    StrippedFirst(s);
    var tok, rest := Segment(p), Behind(p);
    if p == [] || IsPath(p) {
      SimplifiedPath(p, [DOT]);
      SimplifiedPath(p, [DOT, DOT]);
      if IsPath(p) { NoToken(p); }
    } else {
      FirstByte(p);
      if rest == [] {
        OneSegment(tok, [DOT]);
        OneSegment(tok, [DOT, DOT]);
        NoneDropped();
      } else if |tok| == 1 {
        SimplifiedPath(rest, [DOT]);
        SimplifiedPath(rest, [DOT, DOT]);
      } else {
        BaseSegments(tok, rest);
      }
    }
  }

  /** What is stripped from a text: spaces, and then perhaps a first segment "." or "..". */
  lemma {:induction false} StrippedIs(s: Octets) returns (spaces: Octets, dots: Octets)
    ensures s == spaces + dots + Stripped(s) && (forall c :: c in spaces ==> c == Ascii(" ")[0])
    ensures dots == [] || ((dots == Ascii(".") || dots == Ascii("..")) && (Stripped(s) == [] || IsPath(Stripped(s))))
    ensures dots == [] && Stripped(s) != [] ==> Stripped(s)[0] != Ascii(" ")[0]
    decreases |s|
  {
    Dots();
    spaces, dots := [], [];
    if s != [] && s[0] == SP {
      spaces, dots := StrippedIs(s[1..]);
      spaces := [SP] + spaces;
    } else if Stripped(s) != s {
      dots := s[..|s| - |Stripped(s)|];
    }
  }

  // ---------------------------------------------------------------- the scan

  lemma {:induction false} DottedSegments(rest: Octets)
    requires IsPath(rest)
    ensures Dotted(rest) <==> HasSegment(rest[1..], [DOT]) || HasSegment(rest[1..], [DOT, DOT]) || HasGap(rest[1..])
    decreases |rest|
  {
    hide Segment, After, HasSegment, HasGap;
    var seg, rest' := Segment(rest[1..]), After(rest);
    assert rest[1..] == seg + rest';
    SegmentsOf(seg, rest', [DOT]);
    SegmentsOf(seg, rest', [DOT, DOT]);
    if rest' != [] { DottedSegments(rest'); }
  }

  /** The scan of burl_normalize_path finds exactly a segment "." or "..", or an empty one that is not the
      last; the slash in front of a path does not count. */
  lemma ScanSegments(p: Octets)
    requires p != []
    ensures var t := if IsPath(p) then p[1..] else p;
      ScanFinds(p) <==> HasSegment(t, Ascii(".")) || HasSegment(t, Ascii("..")) || HasGap(t)
  {
    hide Dotted, HasSegment, HasGap, Ascii;
    Dots();
    if IsPath(p) { DottedSegments(p); } else {
      assert ([SLASH] + p)[1..] == p;
      DottedSegments([SLASH] + p);
    }
  }

  // ---------------------------------------------------------------- how segments are resolved

  /** The stack after the segments of a text that starts with a slash. */
  function Stack(stack: seq<Octets>, p: Octets): seq<Octets>
    requires p == [] || IsPath(p)
    decreases |p|
  {
    if p == [] then stack else Stack(Apply(stack, Segment(p[1..])), After(p))
  }

  lemma {:induction false} ResolveBehind(stack: seq<Octets>, p: Octets, rest: Octets)
    requires (p == [] || IsPath(p)) && IsPath(rest)
    ensures IsPath(p + rest) && Resolve(stack, p + rest) == Resolve(Stack(stack, p), rest)
    decreases |p|
  {
    hide Segment, After, Apply, Join;
    if p == [] {
      assert p + rest == rest;
    } else {
      var seg, p' := Segment(p[1..]), After(p);
      assert p + rest == [SLASH] + seg + (p' + rest);
      ResolveBehind(Apply(stack, seg), p', rest);
      SegmentOf(seg, p' + rest);
    }
  }

  lemma ResolveNext(stack: seq<Octets>, seg: Octets, rest: Octets)
    requires SLASH !in seg && IsPath(rest)
    ensures Resolve(stack, [SLASH] + seg + rest) == Resolve(Apply(stack, seg), rest)
  {
    SegmentOf(seg, rest);
  }

  /** ".." takes back the segment before it, and nothing at the root; "." and the empty segment go. */
  lemma SimplifyLaws(p: Octets, seg: Octets, rest: Octets)
    requires (p == [] || IsPath(p)) && SLASH !in seg && !Special(seg) && IsPath(rest)
    ensures IsPath(p + rest)
    ensures Simplify(p + ([SLASH] + seg + (Ascii("/..") + rest))) == Simplify(p + rest)
    ensures Simplify(p + (Ascii("/.") + rest)) == Simplify(p + rest)
    ensures Simplify(p + (Ascii("/") + rest)) == Simplify(p + rest)
    ensures Simplify(Ascii("/..") + rest) == Simplify(rest)
  {
    hide Resolve, Join, Ascii;
    Dots();
    DotsPath();
    var up := [SLASH] + [DOT, DOT] + rest;
    var stack := Stack([], p);
    ResolveBehind([], p, rest);
    ResolveBehind([], p, [SLASH] + seg + up);
    ResolveNext(stack, seg, up);
    ResolveNext(stack + [seg], [DOT, DOT], rest);
    assert (stack + [seg])[..|stack|] == stack;
    ResolveBehind([], p, [SLASH] + [DOT] + rest);
    ResolveNext(stack, [DOT], rest);
    ResolveBehind([], p, [SLASH] + [] + rest);
    ResolveNext(stack, [], rest);
    assert [SLASH] + [] + rest == [SLASH] + rest;
    ResolveNext([], [DOT, DOT], rest);
  }

  lemma DotsPath()
    ensures Ascii("/..") == [SLASH] + [DOT, DOT] && Ascii("/.") == [SLASH] + [DOT] && Ascii("/") == [SLASH]
  {
  }

  /** At the end of a path they leave a slash. */
  lemma SimplifyEnds(p: Octets)
    requires p == [] || IsPath(p)
    ensures Simplify(p + Ascii("/..")) == Simplify(p + Ascii("/../"))
    ensures Simplify(p + Ascii("/.")) == Simplify(p + Ascii("/./"))
  {
    hide Resolve, Join, Ascii;
    DotsPath();
    assert Ascii("/../") == [SLASH] + [DOT, DOT] + [SLASH] && Ascii("/./") == [SLASH] + [DOT] + [SLASH] by { LongDots(); }
    var stack := Stack([], p);
    ResolveBehind([], p, Ascii("/.."));
    ResolveBehind([], p, Ascii("/../"));
    ResolveBehind([], p, Ascii("/."));
    ResolveBehind([], p, Ascii("/./"));
    ResolveNext(stack, [DOT, DOT], [SLASH]);
    ResolveNext(stack, [DOT], [SLASH]);
    ResolveSlash(Apply(stack, [DOT, DOT]));
    ResolveSlash(stack);
    LastSegment(stack, [DOT, DOT]);
    LastSegment(stack, [DOT]);
  }

  lemma LongDots()
    ensures Ascii("/../") == [SLASH] + [DOT, DOT] + [SLASH] && Ascii("/./") == [SLASH] + [DOT] + [SLASH]
  {
  }

  lemma LastSegment(stack: seq<Octets>, seg: Octets)
    requires SLASH !in seg && Special(seg)
    ensures Resolve(stack, [SLASH] + seg) == Join(Apply(stack, seg)) + [SLASH]
  {
    SegmentOf(seg, []);
    assert [SLASH] + seg + [] == [SLASH] + seg;
  }

  lemma ResolveSlash(stack: seq<Octets>)
    ensures Resolve(stack, [SLASH]) == Join(stack) + [SLASH]
  {
    LastSegment(stack, []);
    assert [SLASH] + [] == [SLASH];
  }
}
