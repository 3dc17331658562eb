/** Input paths of a policy: how they are displayed, when the display can be read back, and whether
    a schema allows them. */
module PathDisplay {
  import opened Sequences

  // ----- display -----

  predicate Has(s: string, c: char) { c in s }

  /** A segment holding a dot goes in quoted brackets, any other behind a dot. */
  function Show(segment: string): string {
    if Has(segment, '.') then "[\"" + segment + "\"]" else "." + segment
  }

  function ShowAll(segments: seq<string>): string {
    if segments == [] then "" else Show(segments[0]) + ShowAll(segments[1..])
  }

  function Format(segments: seq<string>): string {
    if segments == [] then "" else segments[0] + ShowAll(segments[1..])
  }

  method FormatPath(segments: seq<string>) returns (b: string)
    ensures b == Format(segments)
  {
    hide Show;
    b := "";
    for i := 0 to |segments|
      invariant i == 0 ==> b == ""
      invariant i > 0 ==> Format(segments) == b + ShowAll(segments[i..])
    {
      var seg := segments[i];
      if i == 0 {
        b := b + seg;
        assert b == seg;
        continue;
      }
      assert segments[i..][1..] == segments[i + 1..];
      ShowIs(seg);
      var shown := if '.' in seg then "[\"" + seg + "\"]" else "." + seg;
      assert b + (shown + ShowAll(segments[i + 1..])) == (b + shown) + ShowAll(segments[i + 1..]);
      b := b + shown;
    }
  }

  lemma {:induction false} ShowIs(seg: string)
    ensures Show(seg) == if '.' in seg then "[\"" + seg + "\"]" else "." + seg
  {
  }

  // ----- reading a display back -----

  /** The first position satisfying `stop`, or the length. */
  function Until(s: string, stop: char -> bool): (n: nat)
    ensures n <= |s| && (n < |s| ==> stop(s[n])) && forall i :: 0 <= i < n ==> !stop(s[i])
  {
    if s == [] || stop(s[0]) then 0 else 1 + Until(s[1..], stop)
  }

  predicate StartsSegment(c: char) { c == '.' || c == '[' }

  predicate IsQuote(c: char) { c == '"' }

  function Prepend(segment: string, rest: Option<seq<string>>): Option<seq<string>> {
    match rest
    case None => None
    case Some(segments) => Some([segment] + segments)
  }

  /** Reads segments off the front of a display; none when it is not a display. */
  function ParseSegments(s: string): Option<seq<string>>
    decreases |s|
  {
    if s == [] then Some([])
    else if s[0] == '.' then
      var body := s[1..];
      var n := Until(body, StartsSegment);
      Prepend(body[..n], ParseSegments(body[n..]))
    else if |s| >= 2 && s[0] == '[' && s[1] == '"' then
      var body := s[2..];
      var n := Until(body, IsQuote);
      if n + 1 < |body| && body[n + 1] == ']' then Prepend(body[..n], ParseSegments(body[n + 2..])) else None
    else None
  }

  function Parse(s: string): Option<seq<string>> {
    var n := Until(s, StartsSegment);
    Prepend(s[..n], ParseSegments(s[n..]))
  }

  /** Dotted segments must hold no quote, undotted ones no bracket. */
  predicate Readable(segment: string) {
    if Has(segment, '.') then !Has(segment, '"') else !Has(segment, '[')
  }

  lemma {:induction false} UntilIs(head: string, tail: string, stop: char -> bool)
    requires tail != [] ==> stop(tail[0])
    ensures Until(head + tail, stop) <= |head|
    ensures Until(head + tail, stop) == |head| <==> forall i :: 0 <= i < |head| ==> !stop(head[i])
  {
    hide Until;
    var s := head + tail;
    assert forall i :: 0 <= i < |head| ==> s[i] == head[i];
    assert tail != [] ==> s[|head|] == tail[0];
  }

  lemma {:induction false} ShowAllStarts(segments: seq<string>)
    ensures ShowAll(segments) != [] ==> StartsSegment(ShowAll(segments)[0])
  {
  }

  lemma {:induction false} ParseDotted(s: string, body: string)
    requires s == "." + body
    ensures var n := Until(body, StartsSegment);
            ParseSegments(s) == Prepend(body[..n], ParseSegments(body[n..]))
  {
    hide Until, Prepend;
    assert s[1..] == body;
  }

  lemma {:induction false} ParseBracketed(s: string, body: string)
    requires s == "[\"" + body
    ensures var n := Until(body, IsQuote);
            ParseSegments(s) == if n + 1 < |body| && body[n + 1] == ']'
                                then Prepend(body[..n], ParseSegments(body[n + 2..])) else None
  {
    hide Until, Prepend;
    assert s[2..] == body;
  }

  lemma {:induction false} PrependIs(segment: string, rest: Option<seq<string>>, segments: seq<string>)
    requires segments != []
    ensures Prepend(segment, rest) == Some(segments) <==> segment == segments[0] && rest == Some(segments[1..])
  {
    if rest.Some? {
      assert ([segment] + rest.value)[1..] == rest.value;
      assert [segments[0]] + segments[1..] == segments;
    }
  }

  lemma {:induction false} ReadUndotted(segments: seq<string>, tail: string)
    requires segments != [] && !Has(segments[0], '.') && (tail != [] ==> StartsSegment(tail[0]))
    ensures ParseSegments(Show(segments[0]) + tail) == Some(segments)
            <==> !Has(segments[0], '[') && ParseSegments(tail) == Some(segments[1..])
  {
    hide Until, ParseSegments, Prepend;
    var seg := segments[0];
    var body := seg + tail;
    var n := Until(body, StartsSegment);
    ParseDotted(Show(seg) + tail, body);
    UntilIs(seg, tail, StartsSegment);
    PrependIs(body[..n], ParseSegments(body[n..]), segments);
    if n == |seg| {
      assert body[..n] == seg && body[n..] == tail;
    }
  }

  lemma {:induction false} ReadDotted(segments: seq<string>, tail: string)
    requires segments != [] && Has(segments[0], '.')
    ensures ParseSegments(Show(segments[0]) + tail) == Some(segments)
            <==> !Has(segments[0], '"') && ParseSegments(tail) == Some(segments[1..])
  {
    hide Until, ParseSegments, Prepend;
    var seg := segments[0];
    var body := seg + ("\"]" + tail);
    var n := Until(body, IsQuote);
    assert Show(seg) + tail == "[\"" + body;
    ParseBracketed(Show(seg) + tail, body);
    UntilIs(seg, "\"]" + tail, IsQuote);
    if n == |seg| {
      assert body[n + 1] == ']' && body[..n] == seg && body[n + 2..] == tail;
      PrependIs(seg, ParseSegments(tail), segments);
    } else if n + 1 < |body| {
      PrependIs(body[..n], ParseSegments(body[n + 2..]), segments);
    }
  }

  lemma {:induction false} SegmentsRoundTrip(segments: seq<string>)
    ensures ParseSegments(ShowAll(segments)) == Some(segments) <==> forall seg <- segments :: Readable(seg)
  {
    hide ParseSegments, Show, StartsSegment;
    ParseNothing();
    if segments != [] {
      var seg, rest := segments[0], segments[1..];
      SegmentsRoundTrip(rest);
      ShowAllStarts(rest);
      if Has(seg, '.') { ReadDotted(segments, ShowAll(rest)); } else { ReadUndotted(segments, ShowAll(rest)); }
      assert seg in segments && forall x <- rest :: x in segments;
      assert forall x <- segments :: x == seg || x in rest;
    }
  }

  lemma {:induction false} ParseNothing()
    ensures ParseSegments("") == Some([])
  {
  }

  /** Reading the display of a path gives the path back exactly when its segments are readable. */
  lemma {:induction false} DisplayRoundTrip(segments: seq<string>)
    requires segments != [] && segments[0] == "input"
    ensures Parse(Format(segments)) == Some(segments) <==> forall i :: 1 <= i < |segments| ==> Readable(segments[i])
  {
    hide Until, ParseSegments, ShowAll, Prepend, Readable;
    var rest := segments[1..];
    SegmentsRoundTrip(rest);
    ShowAllStarts(rest);
    UntilIs("input", ShowAll(rest), StartsSegment);
    var s := Format(segments);
    assert s == "input" + ShowAll(rest);
    assert s[..5] == "input" && s[5..] == ShowAll(rest);
    PrependIs("input", ParseSegments(s[5..]), segments);
    assert forall i :: 1 <= i < |segments| ==> segments[i] == rest[i - 1];
  }

  /** So two readable paths with one display are one path. */
  lemma {:induction false} DisplayInjective(first: seq<string>, second: seq<string>)
    requires first != [] && first[0] == "input" && second != [] && second[0] == "input"
    requires forall i :: 1 <= i < |first| ==> Readable(first[i])
    requires forall i :: 1 <= i < |second| ==> Readable(second[i])
    requires Format(first) == Format(second)
    ensures first == second
  {
    hide Parse, Format, Readable;
    DisplayRoundTrip(first);
    DisplayRoundTrip(second);
  }

  lemma {:induction false} FormatThree(a: string, b: string)
    ensures Format(["input", a, b]) == "input" + (Show(a) + Show(b))
  {
    hide Show;
    assert ["input", a, b][1..] == [a, b] && [a, b][1..] == [b];
    assert ShowAll([b]) == Show(b) + "";
  }

  /** Outside that condition two paths can share a display. */
  lemma {:induction false} DisplayIsAmbiguous()
    ensures Format(["input", "x[\"a", "b\"]"]) == Format(["input", "x", "a.b"])
    ensures !Readable("x[\"a")
  {
    hide Format, Show;
    FormatThree("x[\"a", "b\"]");
    FormatThree("x", "a.b");
    ShowIs("x[\"a");
    ShowIs("b\"]");
    ShowIs("x");
    ShowIs("a.b");
    assert "a.b"[1] == '.' && "x[\"a"[1] == '[';
  }

  // ----- schemas -----

  /** Names a schema allows without describing them. */
  datatype Allowed = AnyName | Only(names: set<string>)

  /** A schema node: named fields, a pattern for any name, and names merely allowed. */
  datatype Schema = Schema(fields: map<string, Schema>, pattern: Option<Schema>, allowed: Allowed)

  predicate Allows(schema: Schema, name: string) {
    match schema.allowed case AnyName => true case Only(names) => name in names
  }

  /** Field first, then pattern; an allowed but undescribed name admits whatever follows. */
  predicate Exists(parts: seq<string>, schema: Schema)
    decreases |parts|
  {
    if parts == [] then true
    else if parts[0] in schema.fields then Exists(parts[1..], schema.fields[parts[0]])
    else if schema.pattern.Some? then Exists(parts[1..], schema.pattern.value)
    else Allows(schema, parts[0])
  }

  method PathExistsInSchema(segments: seq<string>, schema: Schema) returns (exists_: bool)
    ensures exists_ <==> |segments| <= 1 || Exists(segments[1..], schema)
  {
    if |segments| <= 1 {
      return true;
    }
    var parts, current := segments[1..], schema;
    assert parts[0..] == parts;
    for i := 0 to |parts|
      invariant Exists(parts, schema) == Exists(parts[i..], current)
    {
      assert parts[i..][1..] == parts[i + 1..];
      if parts[i] in current.fields {
        current := current.fields[parts[i]];
        continue;
      }
      if current.pattern.Some? {
        current := current.pattern.value;
        continue;
      }
      return Allows(current, parts[i]);
    }
    return true;
  }

  /** The schema node behind a name: the field's, or else the pattern's. */
  ghost predicate Leads(schema: Schema, name: string, next: Schema) {
    if name in schema.fields then next == schema.fields[name] else schema.pattern == Some(next)
  }

  /** The nodes passed from the schema on; at the last one the path ends, or its next name has neither a
      field nor a pattern but is allowed. */
  ghost predicate Passes(nodes: seq<Schema>, parts: seq<string>, schema: Schema) {
    && 1 <= |nodes| <= |parts| + 1 && nodes[0] == schema
    && (forall i :: 0 <= i < |nodes| - 1 ==> Leads(nodes[i], parts[i], nodes[i + 1]))
    && (|nodes| == |parts| + 1
        || var last, name := nodes[|nodes| - 1], parts[|nodes| - 1];
           && name !in last.fields && last.pattern == None
           && (last.allowed == AnyName || (last.allowed.Only? && name in last.allowed.names)))
  }

  /** A path exists exactly when it can be followed through the schema, at most up to a bare allowance. */
  lemma {:induction false} ExistsIs(parts: seq<string>, schema: Schema)
    ensures Exists(parts, schema) <==> exists nodes :: Passes(nodes, parts, schema)
    decreases |parts|
  {
    if parts == [] {
      assert Passes([schema], parts, schema);
    } else if parts[0] in schema.fields || schema.pattern.Some? {
      var next := if parts[0] in schema.fields then schema.fields[parts[0]] else schema.pattern.value;
      ExistsIs(parts[1..], next);
      if Exists(parts, schema) {
        var nodes :| Passes(nodes, parts[1..], next);
        assert Passes([schema] + nodes, parts, schema);
      }
      if nodes :| Passes(nodes, parts, schema) {
        assert |nodes| > 1 && Leads(nodes[0], parts[0], nodes[1]);
        assert Passes(nodes[1..], parts[1..], next);
      }
    } else {
      if Exists(parts, schema) {
        assert Passes([schema], parts, schema);
      }
      if nodes :| Passes(nodes, parts, schema) {
        assert |nodes| > 1 ==> Leads(nodes[0], parts[0], nodes[1]);
        assert |nodes| == 1;
      }
    }
  }

  /** Every prefix of a path that exists exists. */
  lemma {:induction false} ExistsIsPrefixClosed(parts: seq<string>, more: seq<string>, schema: Schema)
    requires Exists(parts + more, schema)
    ensures Exists(parts, schema)
    decreases |parts|
  {
    if parts != [] {
      assert (parts + more)[1..] == parts[1..] + more;
      if parts[0] in schema.fields {
        ExistsIsPrefixClosed(parts[1..], more, schema.fields[parts[0]]);
      } else if schema.pattern.Some? {
        ExistsIsPrefixClosed(parts[1..], more, schema.pattern.value);
      }
    }
  }
}
