/** The converse of Multipart.MessageRun: the machine ends on nothing but messages, and fails exactly where no
    message can go on. */
module MultipartGrammar {
  import opened Bytes
  import opened Multipart

  /** The machine comes to the end of the body. */
  ghost predicate Ends(bd: Octets, s: State, m: Octets) { Run(bd, s, m).state == Ended }

  lemma EndsHead(bd: Octets, s: State, m: Octets)
    requires Ends(bd, s, m) && s != Ended
    ensures m != [] && s != Failed && Step(bd, s, m[0]).state != Failed && Ends(bd, Step(bd, s, m[0]).state, m[1..])
  {
    FailedRun(bd, m);
    if m != [] { FailedRun(bd, m[1..]); }
  }

  // ---------------------------------------------------------------- what the machine ends on

  /** A name, and then a colon or the end of the headers. */
  lemma {:induction false} NameShape(bd: Octets, s: State, m: Octets) returns (name: Octets, colon: bool, rest: Octets)
    requires (s == FieldStart || s == Field) && Ends(bd, s, m)
    ensures GoodName(name) && m == name + ((if colon then [COLON] else CRLF) + rest)
    ensures Ends(bd, if colon then ValueStart else DataStart, rest)
    decreases |m|
  {
    hide Run, Among;
    EndsHead(bd, s, m);
    var c := m[0];
    name, rest := [], m[1..];
    NameBytes(c);
    if c == COLON {
      colon := true;
    } else if c == CR {
      EndsHead(bd, HeadersAlmostDone, rest);
      colon, rest := false, rest[1..];
    } else {
      name, colon, rest := NameShape(bd, Field, m[1..]);
      name := [c] + name;
    }
  }

  lemma {:induction false} ValueShape(bd: Octets, s: State, m: Octets) returns (value: Octets, rest: Octets)
    requires (s == ValueStart || s == Value) && Ends(bd, s, m)
    ensures CR !in value && m == value + (CRLF + rest) && Ends(bd, FieldStart, rest)
    decreases |m|
  {
    hide Run;
    EndsHead(bd, s, m);
    if m[0] == CR {
      EndsHead(bd, ValueAlmostDone, m[1..]);
      value, rest := [], m[1..][1..];
    } else {
      value, rest := ValueShape(bd, Step(bd, s, m[0]).state, m[1..]);
      value := [m[0]] + value;
    }
  }

  lemma {:induction false} HeadersShape(bd: Octets, m: Octets) returns (hs: seq<Header>, stub: Octets, rest: Octets)
    requires Ends(bd, FieldStart, m)
    ensures GoodHeaders(hs) && GoodName(stub) && m == HeadersText(hs, stub) + rest && |rest| < |m| && Ends(bd, DataStart, rest)
    decreases |m|
  {
    hide Ends, GoodName;
    var name, colon, tail := NameShape(bd, FieldStart, m);
    hs, stub, rest := [], name, tail;
    if colon {
      var value, more := ValueShape(bd, ValueStart, tail);
      hs, stub, rest := HeadersShape(bd, more);
      var h := Header(name, value);
      assert ([h] + hs)[1..] == hs;
      assert m == name + ([COLON] + (value + (CRLF + HeadersText(hs, stub)))) + rest;
      hs := [h] + hs;
    }
  }

  /** The first delimiter in a text, if there is one. */
  lemma FirstIn(bd: Octets, m: Octets) returns (found: bool, data: Octets, rest: Octets)
    requires bd != []
    ensures found ==> m == data + Delimiter(bd) + rest && Free(bd, data)
    ensures !found ==> Free(bd, m)
  {
    hide Delimiter;
    var k: nat := 0;
    found, data, rest := false, [], m;
    while k <= |m|
      invariant k <= |m| + 1
      invariant forall j: nat :: j < k ==> !EndsWith(m[..j], Delimiter(bd))
    {
      if EndsWith(m[..k], Delimiter(bd)) {
        var n := k - |Delimiter(bd)|;
        found, data, rest := true, m[..n], m[k..];
        assert m[..k] == data + Delimiter(bd);
        DelimiterLong(bd);
        FreeBefore(bd, m, n, k);
        return;
      }
      k := k + 1;
    }
  }

  lemma FreeBefore(bd: Octets, m: Octets, n: nat, k: nat)
    requires n < k <= |m| && forall j: nat :: j < k ==> !EndsWith(m[..j], Delimiter(bd))
    ensures Free(bd, m[..n])
  {
    forall j: nat | j <= n ensures !EndsWith(m[..n][..j], Delimiter(bd)) { assert m[..n][..j] == m[..j]; }
  }

  lemma DataShape(bd: Octets, m: Octets) returns (data: Octets, rest: Octets)
    requires GoodBoundary(bd) && Ends(bd, DataStart, m)
    ensures m == data + Delimiter(bd) + rest && Free(bd, data) && Ends(bd, AlmostEnd, rest) && |rest| < |m|
  {
    hide Run, Free, Delimiter;
    EndsHead(bd, DataStart, m);
    RunDataStart(bd, m);
    var found;
    found, data, rest := FirstIn(bd, m);
    if found {
      PartData(bd, data, rest);
      DelimiterLong(bd);
    } else {
      var h := DataRun(bd, m);
    }
  }

  lemma DelimiterLong(bd: Octets)
    ensures |Delimiter(bd)| >= 2
  {
  }

  /** Behind a delimiter: the two hyphens, or the next part. */
  lemma TailShape(bd: Octets, m: Octets) returns (last: bool, rest: Octets)
    requires Ends(bd, AlmostEnd, m)
    ensures m == (if last then [HYPHEN, HYPHEN] else CRLF) + rest && |rest| < |m| && (!last ==> Ends(bd, FieldStart, rest))
  {
    hide Run;
    EndsHead(bd, AlmostEnd, m);
    last := m[0] == HYPHEN;
    EndsHead(bd, if last then FinalHyphen else DataEnd, m[1..]);
    rest := m[1..][1..];
    assert m == [m[0], m[1]] + rest;
  }

  lemma {:induction false} PartsShape(bd: Octets, m: Octets) returns (ps: seq<Part>, epilogue: Octets)
    requires GoodBoundary(bd) && Ends(bd, FieldStart, m)
    ensures ps != [] && (forall p :: p in ps ==> GoodPart(bd, p)) && m == PartsText(bd, ps, epilogue)
    decreases |m|
  {
    hide Ends, GoodName, GoodHeaders, Free, Delimiter, HeadersText;
    var hs, stub, r := HeadersShape(bd, m);
    var data, tail := DataShape(bd, r);
    var last, rest := TailShape(bd, tail);
    var p := Part(hs, stub, data);
    ps, epilogue := [p], rest;
    if !last {
      var more;
      more, epilogue := PartsShape(bd, rest);
      ps := [p] + more;
      assert ps[1..] == more;
    }
  }

  lemma {:induction false} StartShape(bd: Octets, k: nat, m: Octets) returns (rest: Octets)
    requires k <= |bd| && Ends(bd, StartBoundary(k), m)
    ensures m == bd[k..] + (CRLF + rest) && Ends(bd, FieldStart, rest)
    decreases |bd| - k
  {
    hide Run;
    EndsHead(bd, StartBoundary(k), m);
    if k == |bd| {
      EndsHead(bd, StartBoundary(k + 1), m[1..]);
      rest := m[1..][1..];
      assert m == [m[0], m[1]] + rest;
    } else {
      rest := StartShape(bd, k + 1, m[1..]);
      assert bd[k..] == [bd[k]] + bd[k + 1..];
    }
  }

  lemma MessageShape(bd: Octets, m: Octets) returns (ps: seq<Part>, epilogue: Octets)
    requires GoodBoundary(bd) && Ends(bd, Start, m)
    ensures ps != [] && (forall p :: p in ps ==> GoodPart(bd, p)) && m == Message(bd, ps, epilogue)
  {
    hide Run, GoodPart, PartsText;
    EndsHead(bd, Start, m);
    assert Step(bd, Start, m[0]) == Step(bd, StartBoundary(0), m[0]);
    assert Ends(bd, StartBoundary(0), m) by { RunHead(bd, StartBoundary(0), m, 0); assert m[0..] == m; }
    var rest := StartShape(bd, 0, m);
    assert bd[0..] == bd;
    ps, epilogue := PartsShape(bd, rest);
  }

  /** Main result.  The machine ends on exactly the messages. */
  lemma EndsExact(bd: Octets, m: Octets)
    requires GoodBoundary(bd)
    ensures Run(bd, Start, m).state == Ended <==>
      exists ps, epilogue :: ps != [] && (forall p :: p in ps ==> GoodPart(bd, p)) && m == Message(bd, ps, epilogue)
  {
    hide Run, GoodPart, Message;
    if Ends(bd, Start, m) {
      var ps, epilogue := MessageShape(bd, m);
    }
    forall ps, epilogue | ps != [] && (forall p :: p in ps ==> GoodPart(bd, p)) && m == Message(bd, ps, epilogue)
      ensures Run(bd, Start, m).state == Ended
    {
      MessageRun(bd, ps, epilogue);
    }
  }

  // ---------------------------------------------------------------- where the machine fails

  /** The states that some input leads to. */
  ghost predicate Possible(bd: Octets, s: State) {
    match s
    case StartBoundary(k) => k <= |bd| + 1
    case InData(h) => h < |Delimiter(bd)|
    case Failed => false
    case _ => true
  }

  lemma StepPossible(bd: Octets, s: State, c: Byte)
    requires Possible(bd, s) && bd != [] && Step(bd, s, c).state != Failed
    ensures Possible(bd, Step(bd, s, c).state)
  {
  }

  lemma {:induction false} RunPossible(bd: Octets, s: State, m: Octets)
    requires Possible(bd, s) && bd != [] && Run(bd, s, m).state != Failed
    ensures Possible(bd, Run(bd, s, m).state)
    decreases |m|
  {
    if m != [] {
      hide Step;
      FailedRun(bd, m[1..]);
      StepPossible(bd, s, m[0]);
      RunPossible(bd, Step(bd, s, m[0]).state, m[1..]);
    }
  }

  /** An empty part and the end. */
  function LastPart(bd: Octets): Octets { CRLF + (Delimiter(bd) + [HYPHEN, HYPHEN]) }

  lemma FreeNothing(bd: Octets)
    ensures Free(bd, [])
  {
  }

  lemma FieldEnds(bd: Octets, s: State)
    requires GoodBoundary(bd) && (s == FieldStart || s == Field || s == DataStart)
    ensures Ends(bd, s, if s == DataStart then Delimiter(bd) + [HYPHEN, HYPHEN] else LastPart(bd))
  {
    hide Run, Free, Delimiter;
    var m, none: Octets := Delimiter(bd) + [HYPHEN, HYPHEN], [];
    FreeNothing(bd);
    PartData(bd, [], [HYPHEN, HYPHEN]);
    assert none + Delimiter(bd) + [HYPHEN, HYPHEN] == m;
    AfterDelimiter(bd, []);
    assert [HYPHEN, HYPHEN] + none == [HYPHEN, HYPHEN];
    if s != DataStart {
      TwoSteps(bd, s, CR, LF, m);
      assert LastPart(bd) == [CR, LF] + m;
    }
  }

  /** One byte more. */
  lemma EndsBy(bd: Octets, s: State, c: Byte, rest: Octets)
    requires Ends(bd, Step(bd, s, c).state, rest)
    ensures Ends(bd, s, [c] + rest)
  {
    assert ([c] + rest)[1..] == rest;
  }

  /** Within data the whole delimiter can still come. */
  lemma DataEnds(bd: Octets, h: nat)
    requires GoodBoundary(bd) && h < |Delimiter(bd)|
    ensures Ends(bd, InData(h), Delimiter(bd)[h..] + [HYPHEN, HYPHEN])
    decreases |Delimiter(bd)| - h
  {
    hide Run;
    var d := Delimiter(bd);
    var rest := d[h + 1..] + [HYPHEN, HYPHEN];
    if h + 1 == |d| {
      AfterDelimiter(bd, []);
      assert rest == [HYPHEN, HYPHEN] + [];
    } else {
      DataEnds(bd, h + 1);
    }
    EndsBy(bd, InData(h), d[h], rest);
    assert d[h..] + [HYPHEN, HYPHEN] == [d[h]] + rest;
  }

  lemma StartEnds(bd: Octets, k: nat)
    requires GoodBoundary(bd) && k <= |bd|
    ensures Ends(bd, StartBoundary(k), bd[k..] + (CRLF + LastPart(bd)))
  {
    hide Run, Delimiter;
    FirstBoundary(bd, k, LastPart(bd));
    FieldEnds(bd, FieldStart);
  }

  /** From every state but Failed the body can still be brought to its end. */
  lemma CanEnd(bd: Octets, s: State) returns (rest: Octets)
    requires GoodBoundary(bd) && Possible(bd, s)
    ensures Ends(bd, s, rest)
  {
    hide Run, LastPart, Delimiter;
    FieldEnds(bd, FieldStart);
    FieldEnds(bd, Field);
    FieldEnds(bd, DataStart);
    rest := [];
    var last := LastPart(bd);
    EndsBy(bd, ValueAlmostDone, LF, last);
    EndedRun(bd, []);
    EndsBy(bd, FinalHyphen, HYPHEN, []);
    match s
    case Start =>
      StartEnds(bd, 0);
      rest := bd[0..] + (CRLF + last);
      RunHead(bd, Start, rest, 0);
      RunHead(bd, StartBoundary(0), rest, 0);
      assert rest[0..] == rest;
    case StartBoundary(k) =>
      if k <= |bd| {
        StartEnds(bd, k);
        rest := bd[k..] + (CRLF + last);
      } else {
        EndsBy(bd, s, LF, last);
        rest := [LF] + last;
      }
    case FieldStart => rest := last;
    case Field => rest := last;
    case HeadersAlmostDone =>
      rest := [LF] + (Delimiter(bd) + [HYPHEN, HYPHEN]);
      EndsBy(bd, s, LF, Delimiter(bd) + [HYPHEN, HYPHEN]);
    case ValueStart =>
      rest := [CR] + ([LF] + last);
      EndsBy(bd, s, CR, [LF] + last);
    case Value =>
      rest := [CR] + ([LF] + last);
      EndsBy(bd, s, CR, [LF] + last);
    case ValueAlmostDone => rest := [LF] + last;
    case DataStart => rest := Delimiter(bd) + [HYPHEN, HYPHEN];
    case InData(h) =>
      DataEnds(bd, h);
      rest := Delimiter(bd)[h..] + [HYPHEN, HYPHEN];
    case AlmostEnd =>
      rest := [HYPHEN] + ([HYPHEN] + []);
      EndsBy(bd, s, HYPHEN, [HYPHEN] + []);
    case DataEnd =>
      rest := [LF] + last;
      EndsBy(bd, s, LF, last);
    case FinalHyphen => rest := [HYPHEN] + [];
    case Ended =>
    case Failed => assert false;
  }

  /** Main result.  The machine fails exactly where no message begins with what has come. */
  lemma FailsExact(bd: Octets, m: Octets)
    requires GoodBoundary(bd)
    ensures Run(bd, Start, m).state == Failed <==> forall rest :: !Ends(bd, Start, m + rest)
  {
    hide Run;
    forall rest ensures Run(bd, Start, m + rest).state == Run(bd, Run(bd, Start, m).state, rest).state {
      RunSplit(bd, Start, m, rest);
    }
    if Run(bd, Start, m).state == Failed {
      forall rest ensures !Ends(bd, Start, m + rest) { FailedRun(bd, rest); }
    } else {
      RunPossible(bd, Start, m);
      var rest := CanEnd(bd, Run(bd, Start, m).state);
      assert Ends(bd, Start, m + rest);
    }
  }
}
