/** Splitting C parameter lists and parsing function-pointer spellings
    (src/purego_gen/c_type_utils.py). */
module CDeclarators {
  import opened Text
  import opened Options

  // ---- depth counting ----

  /** Parenthesis depth after `s` from depth `d`, or `None` once it would go negative. */
  function Depth(s: string, d: nat): Option<nat> {
    if s == "" then Some(d)
    else if s[0] == '(' then Depth(s[1..], d + 1)
    else if s[0] == ')' then (if d == 0 then None else Depth(s[1..], d - 1))
    else Depth(s[1..], d)
  }

  predicate Balanced(s: string) {
    Depth(s, 0) == Some(0)
  }

  /** The index of the first comma outside parentheses, `|s|` without one. */
  function TopComma(s: string, d: nat): (i: nat)
    ensures i <= |s|
    ensures i < |s| ==> s[i] == ','
  {
    if s == "" then 0
    else if s[0] == ',' && d == 0 then 0
    else if s[0] == '(' then 1 + TopComma(s[1..], d + 1)
    else if s[0] == ')' && d > 0 then 1 + TopComma(s[1..], d - 1)
    else 1 + TopComma(s[1..], d)
  }

  /** The pieces between the commas outside parentheses. */
  function Segments(s: string): (segments: seq<string>)
    ensures segments != []
  {
    var i := TopComma(s, 0);
    if i == |s| then [s] else [s[..i]] + Segments(s[i + 1..])
  }

  function TrimAll(segments: seq<string>): seq<string> {
    if segments == [] then []
    else
      var first := Strip(segments[0]);
      (if first == "" then [] else [first]) + TrimAll(segments[1..])
  }

  datatype Split = Parts(parts: seq<string>) | ValueError

  function SplitParameterList(list: string): Split {
    var normalized := Strip(list);
    if normalized == "" || normalized == "void" then Parts([])
    else if Balanced(normalized) then Parts(TrimAll(Segments(normalized)))
    else ValueError
  }

  // ---- the loop ----

  /** The state of the loop after a prefix of the text. */
  datatype State = State(parts: seq<string>, current: string, depth: nat)

  /** `_consume_c_parameter_list_char` */
  function Consume(st: State, c: char): Option<State> {
    if c == ',' && st.depth == 0 then
      var part := Strip(st.current);
      Some(State(if part == "" then st.parts else st.parts + [part], "", 0))
    else if c == '(' then Some(State(st.parts, st.current + [c], st.depth + 1))
    else if c == ')' then
      if st.depth == 0 then None else Some(State(st.parts, st.current + [c], st.depth - 1))
    else Some(State(st.parts, st.current + [c], st.depth))
  }

  function ConsumeAll(st: State, s: string): Option<State>
    decreases |s|
  {
    if s == "" then Some(st)
    else match Consume(st, s[0])
         case None => None
         case Some(next) => ConsumeAll(next, s[1..])
  }

  method ConsumeCParameterListChar(c: char, st: State) returns (r: Option<State>)
    ensures r == Consume(st, c)
  {
    var depth, current := st.depth, st.current;
    if c == ',' && depth == 0 {
      var part := Strip(current);
      return Some(State(if part == "" then st.parts else st.parts + [part], "", depth));
    }
    if c == '(' {
      depth := depth + 1;
    } else if c == ')' {
      if depth == 0 {
        return None;
      }
      depth := depth - 1;
    }
    current := current + [c];
    return Some(State(st.parts, current, depth));
  }

  method SplitCParameterList(list: string) returns (r: Split)
    ensures r == SplitParameterList(list)
  {
    var normalized := Strip(list);
    if normalized == "" || normalized == "void" {
      return Parts([]);
    }
    var st := State([], "", 0);
    LoopDecides(normalized);
    ghost var outcome := ConsumeAll(st, normalized);
    for i := 0 to |normalized|
      invariant ConsumeAll(st, normalized[i..]) == outcome
    {
      assert normalized[i..][1..] == normalized[i + 1..];
      var next := ConsumeCParameterListChar(normalized[i], st);
      if next.None? {
        return ValueError;
      }
      st := next.value;
    }
    assert outcome == Some(st);
    if st.depth != 0 {
      return ValueError;
    }
    TrimOne(st.current);
    var tail := Strip(st.current);
    if tail != "" {
      return Parts(st.parts + [tail]);
    }
    assert st.parts + [] == st.parts;
    return Parts(st.parts);
  }

  lemma {:induction false} TrimOne(segment: string)
    ensures TrimAll([segment]) == if Strip(segment) == "" then [] else [Strip(segment)]
  {
    assert [segment][1..] == [];
  }

  lemma {:induction false} LoopDecides(s: string)
    ensures var end := ConsumeAll(State([], "", 0), s);
      if end.Some? && end.value.depth == 0
      then Balanced(s) && end.value.parts + TrimAll([end.value.current]) == TrimAll(Segments(s))
      else !Balanced(s)
  {
    LoopComputes(State([], "", 0), s);
    assert OpenSegments("", s, 0) == Segments(s) by {
      assert "" + s[..TopComma(s, 0)] == s[..TopComma(s, 0)] && "" + s == s;
    }
  }

  ghost predicate Computes(st: State, s: string, end: Option<State>) {
    && (end.None? <==> Depth(s, st.depth).None?)
    && (end.Some? ==>
          && Depth(s, st.depth) == Some(end.value.depth)
          && end.value.parts + TrimAll([end.value.current])
             == st.parts + TrimAll(OpenSegments(st.current, s, st.depth)))
  }

  lemma {:induction false} TrimHead(segment: string, segments: seq<string>)
    ensures TrimAll([segment] + segments) == (if Strip(segment) == "" then [] else [Strip(segment)]) + TrimAll(segments)
  {
    assert ([segment] + segments)[1..] == segments;
  }

  lemma {:induction false} OpenFromStart(rest: string)
    ensures OpenSegments("", rest, 0) == Segments(rest)
  {
    var i := TopComma(rest, 0);
    if i == |rest| {
      assert "" + rest == rest;
    } else {
      assert "" + rest[..i] == rest[..i];
    }
  }

  lemma {:induction false} OpenAtComma(current: string, rest: string)
    ensures OpenSegments(current, "," + rest, 0) == [current] + OpenSegments("", rest, 0)
  {
    var s := "," + rest;
    assert TopComma(s, 0) == 0;
    assert s[0 + 1..] == rest && current + s[..0] == current;
    OpenFromStart(rest);
  }

  /** One step forward: what is left to do is the same. */
  lemma {:induction false} ComputesBefore(st: State, s: string, next: State, rest: string, end: Option<State>)
    requires Computes(next, rest, end) && Depth(s, st.depth) == Depth(rest, next.depth)
    requires st.parts + TrimAll(OpenSegments(st.current, s, st.depth))
          == next.parts + TrimAll(OpenSegments(next.current, rest, next.depth))
    ensures Computes(st, s, end)
  {
  }

  lemma {:induction false} ComputesAtComma(st: State, rest: string, end: Option<State>)
    requires st.depth == 0 && Computes(Consume(st, ',').value, rest, end)
    ensures Computes(st, "," + rest, end)
  {
    OpenAtComma(st.current, rest);
    TrimHead(st.current, OpenSegments("", rest, 0));
    DepthAtComma(rest);
    NextParts(st, TrimAll(OpenSegments("", rest, 0)));
    ComputesBefore(st, "," + rest, Consume(st, ',').value, rest, end);
  }

  lemma {:induction false} NextParts(st: State, tail: seq<string>)
    requires st.depth == 0
    ensures var next := Consume(st, ',').value;
      next.current == "" && next.depth == 0
      && next.parts + tail == st.parts + ((if Strip(st.current) == "" then [] else [Strip(st.current)]) + tail)
  {
  }

  lemma {:induction false} DepthAtComma(rest: string)
    ensures Depth("," + rest, 0) == Depth(rest, 0)
  {
    assert ("," + rest)[1..] == rest;
  }

  lemma {:induction false} ConsumeElsewhere(st: State, c: char)
    requires !(c == ',' && st.depth == 0) && Consume(st, c).Some?
    ensures !(c == ')' && st.depth == 0)
    ensures Consume(st, c).value ==
      State(st.parts, st.current + [c], DepthAfter(c, st.depth))
  {
  }

  lemma {:induction false} DepthStep(c: char, rest: string, d: nat)
    requires !(c == ')' && d == 0)
    ensures Depth([c] + rest, d) == Depth(rest, DepthAfter(c, d))
  {
    assert ([c] + rest)[1..] == rest;
  }

  lemma {:induction false} ComputesElsewhere(st: State, c: char, rest: string, end: Option<State>)
    requires !(c == ',' && st.depth == 0) && Consume(st, c).Some?
    requires Computes(Consume(st, c).value, rest, end)
    ensures Computes(st, [c] + rest, end)
  {
    var s := [c] + rest;
    ConsumeElsewhere(st, c);
    DepthStep(c, rest, st.depth);
    assert s[0] == c && s[1..] == rest;
    OpenSegmentsStep(st.current, s, st.depth);
    ComputesBefore(st, s, Consume(st, c).value, rest, end);
  }

  /** The loop keeps the current segment open while commas are nested. */
  lemma {:induction false} LoopComputes(st: State, s: string)
    ensures Computes(st, s, ConsumeAll(st, s))
    decreases |s|
  {
    if s == "" {
      assert st.current + s == st.current;
    } else {
      var c, rest := s[0], s[1..];
      assert s == [c] + rest;
      if Consume(st, c).Some? {
        LoopComputes(Consume(st, c).value, rest);
        if c == ',' && st.depth == 0 {
          ComputesAtComma(st, rest, ConsumeAll(st, s));
        } else {
          ComputesElsewhere(st, c, rest, ConsumeAll(st, s));
        }
      }
    }
  }

  /** The segments of `s` from depth `d`, the first one continuing `current`. */
  function OpenSegments(current: string, s: string, d: nat): seq<string> {
    var i := TopComma(s, d);
    if i == |s| then [current + s] else [current + s[..i]] + Segments(s[i + 1..])
  }

  /** The depth behind a character that ends no segment. */
  function DepthAfter(c: char, d: nat): nat
    requires !(c == ')' && d == 0)
  {
    if c == '(' then d + 1 else if c == ')' then d - 1 else d
  }

  lemma {:induction false} TopCommaStep(s: string, d: nat)
    requires s != "" && !(s[0] == ',' && d == 0) && !(s[0] == ')' && d == 0)
    ensures TopComma(s, d) == 1 + TopComma(s[1..], DepthAfter(s[0], d))
  {
  }

  lemma {:induction false} OpenSegmentsStep(current: string, s: string, d: nat)
    requires s != "" && !(s[0] == ',' && d == 0) && !(s[0] == ')' && d == 0)
    ensures OpenSegments(current, s, d) == OpenSegments(current + [s[0]], s[1..], DepthAfter(s[0], d))
  {
    var i := TopComma(s[1..], DepthAfter(s[0], d));
    TopCommaStep(s, d);
    if i == |s| - 1 {
      assert current + s == (current + [s[0]]) + s[1..];
    } else {
      assert current + s[..i + 1] == (current + [s[0]]) + s[1..][..i];
      assert s[i + 1 + 1..] == s[1..][i + 1..];
    }
  }

  // ---- what the splitter promises ----

  lemma {:induction false} DepthConcat(a: string, b: string, d: nat)
    ensures Depth(a + b, d) == if Depth(a, d).None? then None else Depth(b, Depth(a, d).value)
  {
    if a == "" {
      assert a + b == b;
    } else {
      assert (a + b)[0] == a[0] && (a + b)[1..] == a[1..] + b;
      var d' := if a[0] == '(' then d + 1 else if a[0] == ')' && d > 0 then d - 1 else d;
      DepthConcat(a[1..], b, d');
    }
  }

  lemma {:induction false} DepthOfSpace(s: string, d: nat)
    requires AllSpace(s)
    ensures Depth(s, d) == Some(d) && TopComma(s, d) == |s|
  {
    if s != "" {
      DepthOfSpace(s[1..], d);
    }
  }

  /** The search for a comma passes over a prefix that has none at its level. */
  lemma {:induction false} TopCommaConcat(a: string, b: string, d: nat)
    requires Depth(a, d).Some? && TopComma(a, d) == |a|
    ensures TopComma(a + b, d) == |a| + TopComma(b, Depth(a, d).value)
  {
    if a == "" {
      assert a + b == b;
    } else {
      assert (a + b)[0] == a[0] && (a + b)[1..] == a[1..] + b;
      var d' := if a[0] == '(' then d + 1 else if a[0] == ')' then d - 1 else d;
      TopCommaConcat(a[1..], b, d');
    }
  }

  lemma {:induction false} StripDepth(s: string)
    ensures Depth(Strip(s), 0) == Depth(s, 0)
    ensures Balanced(s) && TopComma(s, 0) == |s| ==> TopComma(Strip(s), 0) == |Strip(s)|
  {
    StripExact(s);
    var a, b :| s == a + Strip(s) + b && AllSpace(a) && AllSpace(b);
    var t := Strip(s);
    assert s == a + (t + b);
    DepthConcat(a, t + b, 0);
    DepthOfSpace(a, 0);
    DepthConcat(t, b, 0);
    if Depth(t, 0).Some? {
      DepthOfSpace(b, Depth(t, 0).value);
    }
    if Balanced(s) && TopComma(s, 0) == |s| {
      TopCommaConcat(a, t + b, 0);
      TopCommaPrefix(t, b, 0);
    }
  }

  lemma {:induction false} TopCommaPrefix(a: string, b: string, d: nat)
    requires TopComma(a + b, d) == |a + b|
    ensures TopComma(a, d) == |a|
  {
    if a != "" {
      assert (a + b)[0] == a[0] && (a + b)[1..] == a[1..] + b;
      var d' := if a[0] == '(' then d + 1 else if a[0] == ')' && d > 0 then d - 1 else d;
      TopCommaPrefix(a[1..], b, d');
    }
  }

  /** The splitter raises exactly for unbalanced parentheses. */
  lemma {:induction false} SplitFailsIffUnbalanced(list: string)
    ensures SplitParameterList(list).ValueError? <==> !Balanced(list)
  {
    StripDepth(list);
    if Strip(list) == "void" {
      assert Depth("void", 0) == Depth("oid", 0) == Depth("id", 0) == Depth("d", 0) == Depth("", 0);
    }
  }

  /** Balanced, and without a comma outside parentheses. */
  predicate Closed(s: string) {
    Balanced(s) && TopComma(s, 0) == |s|
  }

  /** A part of a parameter list: balanced, trimmed, non-empty, without a comma of its own. */
  predicate IsPart(s: string) {
    s != "" && Trimmed(s) && Closed(s)
  }

  lemma {:induction false} SegmentsJoin(s: string)
    ensures Join(Segments(s), ",") == s
    decreases |s|
  {
    var i := TopComma(s, 0);
    if i < |s| {
      var first, rest := s[..i], s[i + 1..];
      SegmentsJoin(rest);
      assert Segments(s)[1..] == Segments(rest);
      assert s == first + "," + rest;
    }
  }

  lemma {:induction false} SegmentsBalanced(s: string)
    requires Balanced(s)
    ensures forall i :: 0 <= i < |Segments(s)| ==> Closed(Segments(s)[i])
    decreases |s|
  {
    var i := TopComma(s, 0);
    if i < |s| {
      FirstSegment(s);
      SegmentsBalanced(s[i + 1..]);
      forall k | 0 <= k < |Segments(s)| ensures Closed(Segments(s)[k]) {
        assert k == 0 || Segments(s)[k] == Segments(s[i + 1..])[k - 1];
      }
    }
  }

  lemma {:induction false} FirstSegment(s: string)
    requires Balanced(s) && TopComma(s, 0) < |s|
    ensures var i := TopComma(s, 0); Closed(s[..i]) && Balanced(s[i + 1..])
  {
    var first, rest := s[..TopComma(s, 0)], s[TopComma(s, 0) + 1..];
    TopCommaBalances(s, 0);
    assert s == first + ("," + rest);
    DepthConcat(first, "," + rest, 0);
    DepthAtComma(rest);
  }

  /** Joining the segments with commas gives the text back; no comma of a balanced text is left at
      the top level of a segment, and every segment is balanced. */
  lemma {:induction false} SegmentsExact(s: string)
    ensures Join(Segments(s), ",") == s
    ensures Balanced(s) ==> forall i :: 0 <= i < |Segments(s)| ==> Closed(Segments(s)[i])
  {
    SegmentsJoin(s);
    if Balanced(s) {
      SegmentsBalanced(s);
    }
  }

  /** Text up to a comma at its own level returns to depth 0. */
  lemma {:induction false} TopCommaBalances(s: string, d: nat)
    requires TopComma(s, d) < |s|
    ensures Depth(s, d).Some? ==> Depth(s[..TopComma(s, d)], d) == Some(0)
    ensures TopComma(s[..TopComma(s, d)], d) == TopComma(s, d)
  {
    var i := TopComma(s, d);
    if i > 0 {
      var d' := if s[0] == '(' then d + 1 else if s[0] == ')' && d > 0 then d - 1 else d;
      TopCommaBalances(s[1..], d');
      assert s[..i][1..] == s[1..][..i - 1];
    }
  }

  lemma {:induction false} TrimAllParts(segments: seq<string>)
    requires forall i :: 0 <= i < |segments| ==> Closed(segments[i])
    ensures forall i :: 0 <= i < |TrimAll(segments)| ==> IsPart(TrimAll(segments)[i])
  {
    if segments != [] {
      TrimAllParts(segments[1..]);
      StripDepth(segments[0]);
      StripExact(segments[0]);
    }
  }

  /** Whatever is split off is a part. */
  lemma {:induction false} SplitGivesParts(list: string)
    requires Balanced(list)
    ensures var r := SplitParameterList(list);
      r.Parts? && forall i :: 0 <= i < |r.parts| ==> IsPart(r.parts[i])
  {
    SplitFailsIffUnbalanced(list);
    StripDepth(list);
    SegmentsExact(Strip(list));
    TrimAllParts(Segments(Strip(list)));
  }

  predicate AllParts(parts: seq<string>) {
    forall i :: 0 <= i < |parts| ==> IsPart(parts[i])
  }

  lemma {:induction false} PartAfterSpace(space: string, part: string)
    requires (space == "" || space == " ") && IsPart(part)
    ensures Strip(space + part) == part
    ensures Depth(space + part, 0) == Some(0) && TopComma(space + part, 0) == |space + part|
  {
    if space == "" {
      assert space + part == part;
    } else {
      assert (" " + part)[1..] == part && (" " + part)[0] == ' ';
    }
    StripIdentity(part);
  }

  lemma {:induction false} SegmentsAtComma(first: string, rest: string)
    requires Balanced(first) && TopComma(first, 0) == |first|
    ensures Segments(first + "," + rest) == [first] + Segments(rest)
    ensures Balanced(first + "," + rest) <==> Balanced(rest)
  {
    var all := first + "," + rest;
    assert all == first + ("," + rest);
    TopCommaConcat(first, "," + rest, 0);
    DepthConcat(first, "," + rest, 0);
    assert ("," + rest)[1..] == rest;
    assert all[..|first|] == first && all[|first| + 1..] == rest;
  }

  lemma {:induction false} JoinOne(space: string, part: string)
    requires (space == "" || space == " ") && IsPart(part)
    ensures TrimAll(Segments(space + part)) == [part] && Balanced(space + part)
  {
    PartAfterSpace(space, part);
    assert Segments(space + part) == [space + part];
    TrimOne(space + part);
  }

  lemma {:induction false} JoinFirst(space: string, part: string, rest: string)
    requires (space == "" || space == " ") && IsPart(part) && Balanced(rest)
    ensures TrimAll(Segments(space + part + "," + rest)) == [part] + TrimAll(Segments(rest))
    ensures Balanced(space + part + "," + rest)
  {
    PartAfterSpace(space, part);
    SegmentsAtComma(space + part, rest);
    TrimHead(space + part, Segments(rest));
  }

  lemma {:induction false} JoinUnfolds(space: string, parts: seq<string>)
    requires |parts| > 1
    ensures space + Join(parts, ", ") == space + parts[0] + "," + (" " + Join(parts[1..], ", "))
  {
    assert ", " == "," + " ";
  }

  lemma {:induction false} JoinSplits(space: string, parts: seq<string>)
    requires (space == "" || space == " ") && AllParts(parts) && parts != []
    ensures TrimAll(Segments(space + Join(parts, ", "))) == parts
    ensures Balanced(space + Join(parts, ", "))
    decreases |parts|
  {
    if |parts| == 1 {
      JoinOne(space, parts[0]);
    } else {
      var rest := " " + Join(parts[1..], ", ");
      JoinUnfolds(space, parts);
      JoinSplits(" ", parts[1..]);
      JoinFirst(space, parts[0], rest);
      assert parts == [parts[0]] + parts[1..];
    }
  }

  lemma {:induction false} JoinTrimmed(parts: seq<string>)
    requires AllParts(parts) && parts != []
    ensures var s := Join(parts, ", "); s != "" && Trimmed(s) && s[0] == parts[0][0]
    ensures |parts| > 1 ==> ',' in Join(parts, ", ")
  {
    if |parts| > 1 {
      JoinTrimmed(parts[1..]);
      var s, tail := Join(parts, ", "), Join(parts[1..], ", ");
      assert s == parts[0] + ", " + tail;
      assert s[|s| - 1] == tail[|tail| - 1];
      assert s[|parts[0]|] == ',';
    }
  }

  /** Joining parts and splitting gives them back, except that a lone `void` means no parameters. */
  lemma {:induction false} SplitJoinRoundTrip(parts: seq<string>)
    requires AllParts(parts)
    ensures SplitParameterList(Join(parts, ", ")) == Parts(if parts == ["void"] then [] else parts)
  {
    if parts != [] {
      var s := Join(parts, ", ");
      JoinTrimmed(parts);
      StripIdentity(s);
      JoinSplits("", parts);
      assert "" + s == s;
      if s == "void" {
        assert parts == ["void"];
      }
    }
  }

  // ---- function pointers ----

  /** Length of the identifier at the start, 0 without one. */
  function IdentifierLength(s: string): (n: nat)
    ensures n <= |s|
    ensures n > 0 ==> IsIdentifier(s[..n])
    ensures n == 0 ==> s == "" || !IsLetterOrUnderscore(s[0])
    ensures 0 < n < |s| ==> !IsWordChar(s[n])
  {
    if s == "" || !IsLetterOrUnderscore(s[0]) then 0 else 1 + WordCharsLength(s[1..])
  }

  function WordCharsLength(s: string): (n: nat)
    ensures n <= |s|
    ensures forall i :: 0 <= i < n ==> IsWordChar(s[i])
    ensures n < |s| ==> !IsWordChar(s[n])
  {
    if s == "" || !IsWordChar(s[0]) then 0 else 1 + WordCharsLength(s[1..])
  }

  datatype Declarator = Declarator(name: Option<string>, params: string)

  /** The rest of the pattern behind the result type: `(*name)(params)` with optional spaces, where
      the last character closes the parameter list. */
  function MatchDeclarator(s: string): Option<Declarator> {
    if s == "" || s[0] != '(' then None
    else
      var star := StripLeft(s[1..]);
      if star == "" || star[0] != '*' then None else MatchName(StripLeft(star[1..]))
  }

  function MatchName(s: string): Option<Declarator> {
    var n := IdentifierLength(s);
    MatchParams(if n == 0 then None else Some(s[..n]), StripLeft(s[n..]))
  }

  function MatchParams(name: Option<string>, s: string): Option<Declarator> {
    if s == "" || s[0] != ')' then None
    else
      var list := StripLeft(s[1..]);
      if |list| < 2 || list[0] != '(' || list[|list| - 1] != ')' then None
      else Some(Declarator(name, list[1..|list| - 1]))
  }

  /** The shortest non-empty result type wins: the first position from `i` on that matches. */
  function FirstMatch(s: string, i: nat): (r: Option<nat>)
    requires i <= |s|
    ensures r.Some? ==> i <= r.value <= |s| && MatchDeclarator(s[r.value..]).Some?
    ensures forall j :: i <= j <= |s| && (r.Some? ==> j < r.value) ==> MatchDeclarator(s[j..]).None?
    decreases |s| - i
  {
    if MatchDeclarator(s[i..]).Some? then Some(i)
    else if i == |s| then None
    else FirstMatch(s, i + 1)
  }

  datatype Pointer =
    | NotAFunctionPointer
    | UnbalancedParameters
    | FunctionPointer(result: string, name: Option<string>, params: seq<string>)

  /** `parse_function_pointer_c_type` */
  function ParseFunctionPointer(cType: string): Pointer {
    var s := Normalize(cType);
    if s == "" then NotAFunctionPointer
    else
      match FirstMatch(s, 1)
      case None => NotAFunctionPointer
      case Some(i) =>
        var d := MatchDeclarator(s[i..]).value;
        match SplitParameterList(d.params)
        case ValueError => UnbalancedParameters
        case Parts(parts) => FunctionPointer(Strip(s[..i]), d.name, parts)
  }

  /** How a function pointer is spelled. */
  function Print(result: string, name: Option<string>, params: seq<string>): string {
    result + " " + PrintDeclarator(name, params)
  }

  function PrintDeclarator(name: Option<string>, params: seq<string>): string {
    "(*" + NameText(name) + ")(" + Join(params, ", ") + ")"
  }

  function NameText(name: Option<string>): string {
    if name.Some? then name.value else ""
  }

  /** A declarator with spaces at the four places where they are allowed. */
  function Spelled(a: string, b: string, c: string, d: string, name: Option<string>, list: string): string {
    "(" + (a + ("*" + (b + (NameText(name) + (c + (")" + (d + ("(" + list + ")"))))))))
  }

  ghost predicate Spells(s: string, name: Option<string>, list: string) {
    && (name.Some? ==> IsIdentifier(name.value))
    && exists a, b, c, d | AllSpace(a) && AllSpace(b) && AllSpace(c) && AllSpace(d) ::
         s == Spelled(a, b, c, d, name, list)
  }

  /** The pattern matches exactly the spellings of declarators, and finds their name and parameters. */
  lemma {:induction false} MatchExact(s: string, name: Option<string>, list: string)
    ensures MatchDeclarator(s) == Some(Declarator(name, list)) <==> Spells(s, name, list)
  {
    if MatchDeclarator(s) == Some(Declarator(name, list)) {
      MatchSound(s, name, list);
    }
    if Spells(s, name, list) {
      var a, b, c, d :| AllSpace(a) && AllSpace(b) && AllSpace(c) && AllSpace(d)
                     && s == Spelled(a, b, c, d, name, list);
      MatchSpelled(a, b, c, d, name, list);
    }
  }

  lemma {:induction false} LeadingSpace(s: string) returns (a: string)
    ensures AllSpace(a) && s == a + StripLeft(s)
  {
    StripLeftExact(s);
    a := s[..|s| - |StripLeft(s)|];
  }

  lemma {:induction false} MatchSound(s: string, name: Option<string>, list: string)
    requires MatchDeclarator(s) == Some(Declarator(name, list))
    ensures Spells(s, name, list)
  {
    var star := StripLeft(s[1..]);
    var a := LeadingSpace(s[1..]);
    var named := StripLeft(star[1..]);
    var b := LeadingSpace(star[1..]);
    var c, d := MatchNameSound(named, name, list);
    assert star == "*" + (b + named) && s == "(" + (a + star);
    assert s == Spelled(a, b, c, d, name, list);
  }

  lemma {:induction false} MatchNameSound(s: string, name: Option<string>, list: string) returns (c: string, d: string)
    requires MatchName(s) == Some(Declarator(name, list))
    ensures AllSpace(c) && AllSpace(d) && (name.Some? ==> IsIdentifier(name.value))
    ensures s == NameText(name) + (c + (")" + (d + ("(" + list + ")"))))
  {
    var n := IdentifierLength(s);
    var close := StripLeft(s[n..]);
    c := LeadingSpace(s[n..]);
    var params := StripLeft(close[1..]);
    d := LeadingSpace(close[1..]);
    assert params == "(" + list + ")";
    assert close == ")" + (d + params) && s == s[..n] + (c + close) && s[..n] == NameText(name);
  }

  lemma {:induction false} StripSpaces(a: string, s: string)
    requires AllSpace(a) && s != "" && !IsSpace(s[0])
    ensures StripLeft(a + s) == s
  {
    if a == "" {
      assert a + s == s;
    } else {
      assert (a + s)[0] == a[0] && (a + s)[1..] == a[1..] + s;
      StripSpaces(a[1..], s);
    }
  }

  /** Without a name the spaces around it are one run. */
  lemma {:induction false} MatchSpelled(a: string, b: string, c: string, d: string, name: Option<string>, list: string)
    requires AllSpace(a) && AllSpace(b) && AllSpace(c) && AllSpace(d) && (name.Some? ==> IsIdentifier(name.value))
    ensures MatchDeclarator(Spelled(a, b, c, d, name, list)) == Some(Declarator(name, list))
  {
    if name.Some? {
      MatchSpelledTight(a, b, c, d, name, list);
    } else {
      MatchSpelledTight(a, b + c, "", d, name, list);
      var close := ")" + (d + ("(" + list + ")"));
      assert b + ("" + (c + close)) == b + c + ("" + ("" + close));
    }
  }

  lemma {:induction false} MatchSpelledTight(
    a: string, b: string, c: string, d: string, name: Option<string>, list: string)
    requires AllSpace(a) && AllSpace(b) && AllSpace(c) && AllSpace(d) && (name.Some? ==> IsIdentifier(name.value))
    requires name.None? ==> c == ""
    ensures MatchDeclarator(Spelled(a, b, c, d, name, list)) == Some(Declarator(name, list))
  {
    var named := NameText(name) + (c + (")" + (d + ("(" + list + ")"))));
    var s := Spelled(a, b, c, d, name, list);
    assert s == "(" + (a + ("*" + (b + named)));
    assert s[1..] == a + ("*" + (b + named)) && ("*" + (b + named))[1..] == b + named;
    StripSpaces(a, "*" + (b + named));
    MatchSpelledName(c, d, name, list);
    StripSpaces(b, named);
  }

  lemma {:induction false} MatchSpelledName(c: string, d: string, name: Option<string>, list: string)
    requires AllSpace(c) && AllSpace(d) && (name.Some? ==> IsIdentifier(name.value)) && (name.None? ==> c == "")
    ensures var named := NameText(name) + (c + (")" + (d + ("(" + list + ")"))));
      named != "" && !IsSpace(named[0]) && MatchName(named) == Some(Declarator(name, list))
  {
    var params := "(" + list + ")";
    var close := ")" + (d + params);
    var id := NameText(name);
    var named := id + (c + close);
    IdentifierEnds(id, c + close);
    assert named[|id|..] == c + close && named[..|id|] == id;
    StripSpaces(c, close);
    assert close[1..] == d + params;
    StripSpaces(d, params);
    assert params[1..|params| - 1] == list;
  }

  lemma {:induction false} IdentifierEnds(id: string, rest: string)
    requires (id == "" || IsIdentifier(id)) && rest != "" && !IsWordChar(rest[0])
    ensures IdentifierLength(id + rest) == |id|
  {
    if id == "" {
      assert id + rest == rest;
    } else {
      WordCharsEnd(id[1..], rest);
      assert (id + rest)[1..] == id[1..] + rest;
    }
  }

  lemma {:induction false} WordCharsEnd(word: string, rest: string)
    requires (forall i :: 0 <= i < |word| ==> IsWordChar(word[i])) && rest != "" && !IsWordChar(rest[0])
    ensures WordCharsLength(word + rest) == |word|
  {
    if word == "" {
      assert word + rest == rest;
    } else {
      WordCharsEnd(word[1..], rest);
      assert (word + rest)[0] == word[0] && (word + rest)[1..] == word[1..] + rest;
    }
  }

  lemma {:induction false} MatchPrinted(name: Option<string>, params: seq<string>)
    requires name.Some? ==> IsIdentifier(name.value)
    ensures MatchDeclarator(PrintDeclarator(name, params)) == Some(Declarator(name, Join(params, ", ")))
  {
    MatchSpelled("", "", "", "", name, Join(params, ", "));
    SpelledTight(name, Join(params, ", "));
  }

  lemma {:induction false} SpelledTight(name: Option<string>, list: string)
    ensures Spelled("", "", "", "", name, list) == "(*" + NameText(name) + ")(" + list + ")"
  {
    var params := "(" + list + ")";
    var close := ")" + ("" + params);
    var named := NameText(name) + ("" + close);
    assert "" + params == params && "" + close == close && "" + named == named;
    assert Spelled("", "", "", "", name, list) == "(" + ("*" + named);
  }

  lemma {:induction false} NoSpaceFirst(s: string)
    requires s != "" && !IsSpace(s[0])
    ensures StripLeft(s) == s
  {
  }

  lemma {:induction false} FirstMatchAt(s: string, i: nat, k: nat)
    requires i <= k <= |s| && MatchDeclarator(s[k..]).Some?
    requires forall j :: i <= j < k ==> s[j] != '('
    ensures FirstMatch(s, i) == Some(k)
    decreases k - i
  {
    if i < k {
      assert s[i..][0] == s[i];
      FirstMatchAt(s, i + 1, k);
    }
  }

  /** Parts joined with ", " are spelled normally when each of them is. */
  lemma {:induction false} JoinNormalized(parts: seq<string>)
    requires AllParts(parts) && forall i :: 0 <= i < |parts| ==> Normalized(parts[i])
    ensures Normalized(Join(parts, ", "))
  {
    if |parts| > 1 {
      JoinNormalized(parts[1..]);
      JoinTrimmed(parts[1..]);
      var a, b := parts[0] + ",", Join(parts[1..], ", ");
      NormalizedEnds(parts[0], ",");
      NormalizedSpace(a, b);
      assert Join(parts, ", ") == a + " " + b;
    }
  }

  lemma {:induction false} NormalizedEnds(a: string, b: string)
    requires Normalized(a) && Normalized(b)
    ensures Normalized(a + b)
  {
    var s := a + b;
    forall i | 0 <= i < |s| && IsSpace(s[i])
      ensures s[i] == ' ' && 0 < i < |s| - 1 && !IsSpace(s[i - 1]) && !IsSpace(s[i + 1])
    {
      if i < |a| {
        assert IsSpace(a[i]);
      } else {
        assert IsSpace(b[i - |a|]);
      }
    }
  }

  lemma {:induction false} PrintNormalized(result: string, name: Option<string>, params: seq<string>)
    requires result != "" && Normalized(result) && (name.Some? ==> IsIdentifier(name.value))
    requires AllParts(params) && forall i :: 0 <= i < |params| ==> Normalized(params[i])
    ensures Normalized(Print(result, name, params))
  {
    var id := NameText(name);
    JoinNormalized(params);
    NormalizedEnds("(*", id);
    NormalizedEnds("(*" + id, ")(");
    NormalizedEnds("(*" + id + ")(", Join(params, ", "));
    NormalizedEnds("(*" + id + ")(" + Join(params, ", "), ")");
    NormalizedSpace(result, PrintDeclarator(name, params));
  }

  lemma {:induction false} PrintedMatch(result: string, name: Option<string>, params: seq<string>)
    requires result != "" && '(' !in result && (name.Some? ==> IsIdentifier(name.value))
    ensures var s := Print(result, name, params);
      FirstMatch(s, 1) == Some(|result| + 1) && s[..|result| + 1] == result + " "
      && MatchDeclarator(s[|result| + 1..]) == Some(Declarator(name, Join(params, ", ")))
  {
    var s, k := Print(result, name, params), |result| + 1;
    assert s[k..] == PrintDeclarator(name, params);
    MatchPrinted(name, params);
    assert forall j :: 1 <= j < k ==> s[j] == if j < |result| then result[j] else ' ';
    FirstMatchAt(s, 1, k);
  }

  lemma {:induction false} StripAfter(s: string)
    requires s != "" && Trimmed(s)
    ensures Strip(s + " ") == s
  {
    assert (s + " ")[..|s|] == s;
    StripIdentity(s);
    NoSpaceFirst(s + " ");
  }

  /** Printing a function pointer and parsing it gives the same result type, name and parameters. */
  lemma {:induction false} FunctionPointerRoundTrip(result: string, name: Option<string>, params: seq<string>)
    requires result != "" && Normalized(result) && '(' !in result
    requires name.Some? ==> IsIdentifier(name.value)
    requires AllParts(params) && forall i :: 0 <= i < |params| ==> Normalized(params[i])
    ensures ParseFunctionPointer(Print(result, name, params))
         == FunctionPointer(result, name, if params == ["void"] then [] else params)
  {
    PrintNormalized(result, name, params);
    NormalizeIdentity(Print(result, name, params));
    PrintedMatch(result, name, params);
    SplitJoinRoundTrip(params);
    NormalizedIsTrimmed(result);
    StripAfter(result);
  }

  // ---- whatever parses ----

  /** The first declarator behind a non-empty result type starts at `i`. */
  ghost predicate FirstDeclarator(s: string, i: nat, name: Option<string>, list: string) {
    && 1 <= i <= |s| && Spells(s[i..], name, list)
    && forall j, n, l {:trigger Spells(s[j..], n, l)} :: 1 <= j < i ==> !Spells(s[j..], n, l)
  }

  lemma {:induction false} FirstMatchExact(s: string)
    requires s != ""
    ensures match FirstMatch(s, 1)
      case None => forall j, n, l {:trigger Spells(s[j..], n, l)} :: 1 <= j <= |s| ==> !Spells(s[j..], n, l)
      case Some(i) =>
        var d := MatchDeclarator(s[i..]).value; FirstDeclarator(s, i, d.name, d.params)
  {
    var r := FirstMatch(s, 1);
    forall j, n, l | 1 <= j <= |s| && (r.Some? ==> j < r.value)
      ensures !Spells(s[j..], n, l)
    {
      MatchExact(s[j..], n, l);
    }
    if r.Some? {
      var d := MatchDeclarator(s[r.value..]).value;
      MatchExact(s[r.value..], d.name, d.params);
    }
  }

  /** The text is a result type and, after at most spaces, a declarator: the first one that leaves
      room for a result type. */
  ghost predicate IsPointerText(s: string, result: string, name: Option<string>, list: string) {
    && result != "" && Trimmed(result)
    && exists gap, text :: AllSpace(gap) && s == result + gap + text && FirstDeclarator(s, |result + gap|, name, list)
  }

  lemma {:induction false} ResultBefore(s: string, i: nat, name: Option<string>, list: string)
    requires Normalized(s) && FirstDeclarator(s, i, name, list)
    ensures IsPointerText(s, Strip(s[..i]), name, list)
  {
    var head := s[..i];
    assert !IsSpace(s[0]) && head[0] == s[0];
    NoSpaceFirst(head);
    StripRightExact(head);
    StripTrims(head);
    var result := Strip(head);
    assert result == StripRight(head);
    var gap := head[|result|..];
    assert head == result + gap && s == result + gap + s[i..] && i == |result + gap|;
  }

  /** What is parsed was there: for every spelling, the normalised text is the returned result type
      followed by a declarator of the returned name, whose list splits into the returned parameters;
      and `None` or an error is returned only without a declarator or with an unbalanced list. */
  lemma {:induction false} ParsedWasSpelled(cType: string)
    ensures var s := Normalize(cType);
      match ParseFunctionPointer(cType)
      case NotAFunctionPointer =>
        forall j, n, l {:trigger Spells(s[j..], n, l)} :: 1 <= j <= |s| ==> !Spells(s[j..], n, l)
      case UnbalancedParameters => exists i, name, list :: FirstDeclarator(s, i, name, list) && !Balanced(list)
      case FunctionPointer(result, name, params) =>
        exists list :: IsPointerText(s, result, name, list) && SplitParameterList(list) == Parts(params)
  {
    var s := Normalize(cType);
    if s != "" {
      FirstMatchExact(s);
      NormalizeNormal(cType);
      if FirstMatch(s, 1).Some? {
        var i := FirstMatch(s, 1).value;
        var d := MatchDeclarator(s[i..]).value;
        SplitFailsIffUnbalanced(d.params);
        ResultBefore(s, i, d.name, d.params);
      }
    }
  }

  // ---- nested function pointers ----

  datatype Spelling =
    | Plain(text: string)
    | ToFunction(result: string, name: Option<string>, params: seq<Spelling>)

  function Render(t: Spelling): string {
    match t
    case Plain(text) => text
    case ToFunction(result, name, params) => Print(result, name, RenderAll(params))
  }

  function RenderAll(ts: seq<Spelling>): (r: seq<string>)
    ensures |r| == |ts| && forall i :: 0 <= i < |ts| ==> r[i] == Render(ts[i])
  {
    if ts == [] then [] else [Render(ts[0])] + RenderAll(ts[1..])
  }

  predicate PlainPart(s: string) {
    IsPart(s) && Normalized(s)
  }

  predicate WellSpelled(t: Spelling) {
    match t
    case Plain(text) => PlainPart(text)
    case ToFunction(result, name, params) =>
      && PlainPart(result) && '(' !in result
      && (name.Some? ==> IsIdentifier(name.value))
      && forall i :: 0 <= i < |params| ==> WellSpelled(params[i])
  }

  lemma {:induction false} NoParenDepth(s: string, d: nat)
    requires '(' !in s && ')' !in s
    ensures Depth(s, d) == Some(d)
    ensures d > 0 || ',' !in s ==> TopComma(s, d) == |s|
  {
    if s != "" {
      NoParenDepth(s[1..], d);
    }
  }

  /** Balanced text inside parentheses hides its commas. */
  lemma {:induction false} NestedCommas(s: string, d: nat, e: nat)
    requires Depth(s, d).Some? && e > 0
    ensures Depth(s, d + e) == Some(Depth(s, d).value + e)
    ensures TopComma(s, d + e) == |s|
  {
    if s != "" {
      var d' := if s[0] == '(' then d + 1 else if s[0] == ')' then d - 1 else d;
      NestedCommas(s[1..], d', e);
    }
  }

  lemma {:induction false} InParens(s: string)
    requires Balanced(s)
    ensures Balanced("(" + s + ")") && TopComma("(" + s + ")", 0) == |"(" + s + ")"|
  {
    var all := "(" + s + ")";
    assert all[1..] == s + ")";
    NestedCommas(s, 0, 1);
    DepthConcat(s, ")", 1);
    TopCommaConcat(s, ")", 1);
    assert Depth(")", 1) == Depth(")"[1..], 0) && ")"[1..] == "";
    assert TopComma(")", 1) == 1 + TopComma(")"[1..], 0);
  }

  lemma {:induction false} DeclaratorClosed(id: string, list: string)
    requires (id == "" || IsIdentifier(id)) && Balanced(list)
    ensures Closed("(" + ("*" + id) + ")" + ("(" + list + ")"))
  {
    assert forall i :: 0 <= i < |id| ==> IsWordChar(id[i]);
    NoParenDepth("*" + id, 0);
    InParens("*" + id);
    InParens(list);
    PartsSideBySide("(" + ("*" + id) + ")", "(" + list + ")");
  }

  lemma {:induction false} SpaceClosed(declarator: string)
    requires Closed(declarator)
    ensures Closed(" " + declarator)
  {
    DepthOfSpace(" ", 0);
    PartsSideBySide(" ", declarator);
  }

  lemma {:induction false} PrintClosed(result: string, name: Option<string>, params: seq<string>)
    requires Closed(result) && (name.Some? ==> IsIdentifier(name.value)) && Balanced(Join(params, ", "))
    ensures Closed(Print(result, name, params))
  {
    var id := NameText(name);
    var declarator := "(" + ("*" + id) + ")" + ("(" + Join(params, ", ") + ")");
    DeclaratorClosed(id, Join(params, ", "));
    SpaceClosed(declarator);
    PartsSideBySide(result, " " + declarator);
    assert Print(result, name, params) == result + (" " + declarator);
  }

  /** A printed function pointer is itself a parameter. */
  lemma {:induction false} PrintIsPart(result: string, name: Option<string>, params: seq<string>)
    requires PlainPart(result) && (name.Some? ==> IsIdentifier(name.value))
    requires AllParts(params) && forall i :: 0 <= i < |params| ==> Normalized(params[i])
    ensures PlainPart(Print(result, name, params))
  {
    PrintNormalized(result, name, params);
    JoinBalanced(params);
    PrintClosed(result, name, params);
    NormalizedIsTrimmed(Print(result, name, params));
  }

  lemma {:induction false} JoinBalanced(params: seq<string>)
    requires AllParts(params)
    ensures Balanced(Join(params, ", "))
  {
    if params != [] {
      JoinSplits("", params);
      assert "" + Join(params, ", ") == Join(params, ", ");
    }
  }

  lemma {:induction false} NormalizedIsTrimmed(s: string)
    requires Normalized(s)
    ensures Trimmed(s)
  {
  }

  lemma {:induction false} PartsSideBySide(a: string, b: string)
    requires Closed(a) && Closed(b)
    ensures Closed(a + b)
  {
    DepthConcat(a, b, 0);
    TopCommaConcat(a, b, 0);
  }

  lemma {:induction false} RenderIsPart(t: Spelling)
    requires WellSpelled(t)
    ensures PlainPart(Render(t))
  {
    if t.ToFunction? {
      forall i | 0 <= i < |t.params|
        ensures PlainPart(RenderAll(t.params)[i])
      {
        RenderIsPart(t.params[i]);
      }
      PrintIsPart(t.result, t.name, RenderAll(t.params));
    }
  }

  /** The round trip at any nesting: a function pointer whose parameters are again function
      pointers parses into their spellings. */
  lemma {:induction false} NestedRoundTrip(t: Spelling)
    requires WellSpelled(t) && t.ToFunction?
    ensures ParseFunctionPointer(Render(t))
         == FunctionPointer(t.result, t.name, if RenderAll(t.params) == ["void"] then [] else RenderAll(t.params))
  {
    forall i | 0 <= i < |t.params|
      ensures PlainPart(RenderAll(t.params)[i])
    {
      RenderIsPart(t.params[i]);
    }
    FunctionPointerRoundTrip(t.result, t.name, RenderAll(t.params));
  }
}
