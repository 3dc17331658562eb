/** When the display of an input path has more than one reading. */
module PathReadings {
  import opened PathDisplay
  import opened Sequences

  predicate Dotted(segment: string) { Has(segment, '.') }

  ghost predicate AllPlain(segments: seq<string>) { forall s <- segments :: !Dotted(s) }

  predicate Closes(s: string) { |s| >= 2 && s[|s| - 2] == '"' && s[|s| - 1] == ']' }

  predicate OpensAt(s: string, k: nat) { k + 1 < |s| && s[k] == '[' && s[k + 1] == '"' }

  predicate Opens(s: string) { exists k :: 0 <= k < |s| && OpensAt(s, k) }

  /** The quoted bracket around `w` could close at `k` already: something dotted lies before, and what
      lies behind reads on as a dotted start or as a quoted bracket of its own. */
  predicate BreaksAt(w: string, k: nat) {
    && k + 2 < |w| && w[k] == '"' && w[k + 1] == ']' && Has(w[..k], '.')
    && (w[k + 2] == '.' || (OpensAt(w, k + 2) && Has(w[k + 4..], '.')))
  }

  predicate Breaks(w: string) { exists k :: 0 <= k < |w| && BreaksAt(w, k) }

  /** What makes the display of these segments readable in another way. */
  predicate Ambiguous(segments: seq<string>) {
    || (exists k :: 1 <= k < |segments| && Dotted(segments[k]))
    || (segments != [] && Dotted(segments[0])
        && (Breaks(segments[0]) || exists j :: 1 <= j < |segments| && Closes(segments[j])))
    || (exists i, j :: 0 <= i < j < |segments| && !Dotted(segments[i]) && Opens(segments[i]) && Closes(segments[j]))
  }

  // ----- the shape of a display -----

  lemma {:induction false} ShowAllStep(segments: seq<string>)
    requires segments != []
    ensures ShowAll(segments) == Show(segments[0]) + ShowAll(segments[1..])
  {
  }

  lemma {:induction false} ShowAllAppend(xs: seq<string>, ys: seq<string>)
    ensures ShowAll(xs + ys) == ShowAll(xs) + ShowAll(ys)
  {
    hide Show;
    if xs == [] {
      assert xs + ys == ys;
    } else {
      calc {
        ShowAll(xs + ys);
        { assert (xs + ys)[1..] == xs[1..] + ys; }
        Show(xs[0]) + ShowAll(xs[1..] + ys);
        { ShowAllAppend(xs[1..], ys); }
        Show(xs[0]) + (ShowAll(xs[1..]) + ShowAll(ys));
        ShowAll(xs) + ShowAll(ys);
      }
    }
  }

  lemma {:induction false} ShowAllOne(segment: string)
    ensures ShowAll([segment]) == Show(segment)
  {
    assert [segment][1..] == [];
  }

  /** A display starts with a dot or an opened bracket, by the kind of its first segment. */
  lemma {:induction false} Head(segments: seq<string>)
    ensures segments == [] <==> ShowAll(segments) == ""
    ensures segments != [] && !Dotted(segments[0]) ==> ShowAll(segments)[0] == '.'
    ensures segments != [] && Dotted(segments[0]) ==> OpensAt(ShowAll(segments), 0)
  {
  }

  // ----- no second reading -----

  /** In a display of plain segments, a closed bracket in front of a dot or the end ends a segment. */
  lemma {:induction false} ClosedAtEnd(segments: seq<string>, front: string, back: string)
    requires AllPlain(segments) && ShowAll(segments) == front + back
    requires Closes(front) && (back == "" || back[0] == '.')
    ensures exists j :: 0 <= j < |segments| && Closes(segments[j])
  {
    hide ShowAll;
    Head(segments);
    var d := ShowAll(segments);
    assert d[|front| - 2] == '"' && d[|front| - 1] == ']' && (back != "" ==> d[|front|] == '.');
    ShowAllStep(segments);
    var seg, rest := segments[0], segments[1..];
    assert seg in segments && forall s <- rest :: s in segments;
    var token := Show(seg);
    assert forall i :: 0 <= i < |token| ==> d[i] == token[i];
    assert token == "." + seg;
    assert forall i :: 1 <= i < |token| ==> token[i] == seg[i - 1] != '.';
    assert |front| >= |token|;
    if |front| == |token| {
      assert Closes(segments[0]);
    } else {
      var inner := front[|token|..];
      TwoCuts(token, ShowAll(rest), front, back);
      Head(rest);
      assert rest[0] in rest;
      assert inner[0] == '.' && |inner| >= 2;
      ClosedAtEnd(rest, inner, back);
      var j :| 0 <= j < |rest| && Closes(rest[j]);
      assert Closes(segments[j + 1]);
    }
  }

  /** The quoted brackets at the front of a display, up to the first dot behind them or the end. */
  lemma {:induction false} Run(segments: seq<string>) returns (run: string, back: string)
    requires segments != [] && Dotted(segments[0])
    ensures ShowAll(segments) == run + back && (back == "" || back[0] == '.')
    ensures |run| >= |segments[0]| + 4 && OpensAt(run, 0) && Closes(run)
    ensures Has(run[2..|run| - 2], '.')
  {
    hide ShowAll, Show, Has, Closes;
    ShowAllStep(segments);
    var w, rest := segments[0], segments[1..];
    Head(rest);
    var more := "";
    if rest == [] || !Dotted(rest[0]) {
      back := ShowAll(rest);
      assert more + back == back;
    } else {
      more, back := Run(rest);
    }
    run := Show(w) + more;
    DotInside(run, w, more);
    assert run + back == Show(w) + (more + back);
  }

  /** Two readings that start with a plain segment agree on it, unless it opens a bracket and a later
      segment closes one. */
  lemma {:induction false} PlainHeads(segments: seq<string>, other: seq<string>)
    requires segments != [] && other != [] && AllPlain(segments) && !Dotted(other[0])
    requires ShowAll(segments) == ShowAll(other)
    ensures || (segments[0] == other[0] && ShowAll(segments[1..]) == ShowAll(other[1..]))
            || (Opens(segments[0]) && exists j :: 1 <= j < |segments| && Closes(segments[j]))
  {
    hide ShowAll, Closes;
    var a, b, tail, otherTail := segments[0], other[0], ShowAll(segments[1..]), ShowAll(other[1..]);
    assert a in segments && forall s <- segments[1..] :: s in segments;
    ShowAllStep(segments);
    ShowAllStep(other);
    Head(segments[1..]);
    Head(other[1..]);
    assert Show(a) == "." + a && Show(b) == "." + b;
    assert Show(a)[1..] == a && Show(b)[1..] == b;
    if |a| <= |b| {
      TwoCuts(Show(a), tail, Show(b), otherTail);
      var more := Show(b)[|a| + 1..];
      assert more == b[|a|..] && (tail != "" ==> segments[1] in segments);
      DotInFront(more, tail, otherTail);
      assert more == "";
    } else {
      TwoCuts(Show(b), otherTail, Show(a), tail);
      PlainOverhang(segments, other, Show(a)[|b| + 1..]);
    }
  }

  lemma {:induction false} DotInFront(more: string, tail: string, back: string)
    requires tail == more + back && (tail != "" ==> tail[0] == '.')
    ensures more != "" ==> Has(more, '.')
  {
    if more != "" {
      assert more[0] == tail[0];
    }
  }

  lemma {:induction false} PlainOverhang(segments: seq<string>, other: seq<string>, more: string)
    requires segments != [] && other != [] && AllPlain(segments)
    requires more != "" && |more| <= |segments[0]| && more == segments[0][|segments[0]| - |more|..]
    requires ShowAll(other[1..]) == more + ShowAll(segments[1..])
    ensures Opens(segments[0]) && exists j :: 1 <= j < |segments| && Closes(segments[j])
  {
    hide ShowAll, Closes;
    var a, rest, tail := segments[0], segments[1..], ShowAll(segments[1..]);
    var at := |a| - |more|;
    assert a in segments && forall s <- rest :: s in segments;
    assert forall i :: 0 <= i < |more| ==> more[i] == a[at + i] && more[i] != '.';
    Head(rest);
    Head(other[1..]);
    assert ShowAll(other[1..])[0] == more[0];
    var run, back := Run(other[1..]);
    var d := more + tail;
    assert OpensAt(d, 0) && OpensAt(a, at);
    BehindMore(more, tail, run, back);
    ClosedAtEnd(rest, run[|more|..], back);
    var j :| 0 <= j < |rest| && Closes(rest[j]);
    assert segments[j + 1] == rest[j];
  }

  /** A run that starts in `more`, which holds no dot, ends behind it. */
  lemma {:induction false} BehindMore(more: string, tail: string, run: string, back: string)
    requires more + tail == run + back && !Has(more, '.')
    requires Closes(run) && |run| >= 4 && Has(run[2..|run| - 2], '.')
    ensures |run| > |more| + 2 && tail == run[|more|..] + back && Closes(run[|more|..])
  {
    var k :| 0 <= k < |run| - 4 && run[2..|run| - 2][k] == '.';
    var d := more + tail;
    assert d[k + 2] == run[k + 2] == '.';
    assert forall i :: 0 <= i < |more| ==> d[i] == more[i] != '.';
    assert k + 2 >= |more|;
    TwoCuts(more, tail, run, back);
  }

  /** Two readings that start with a dotted segment agree on it, unless its bracket could close sooner
      or later. */
  lemma {:induction false} DottedHeads(segments: seq<string>, other: seq<string>)
    requires segments != [] && other != [] && Dotted(segments[0]) && Dotted(other[0]) && AllPlain(segments[1..])
    requires ShowAll(segments) == ShowAll(other)
    ensures || (segments[0] == other[0] && ShowAll(segments[1..]) == ShowAll(other[1..]))
            || Breaks(segments[0]) || exists j :: 1 <= j < |segments| && Closes(segments[j])
  {
    hide ShowAll, Closes, Breaks;
    var w, v, tail, otherTail := segments[0], other[0], ShowAll(segments[1..]), ShowAll(other[1..]);
    ShowAllStep(segments);
    ShowAllStep(other);
    ShowIs(w);
    ShowIs(v);
    if |w| < |v| {
      var run, back := Run(other);
      TwoCuts(Show(w), tail, run, back);
      EndOf(run, |w| + 4);
      ClosesLater(segments, run[|w| + 4..], back);
    } else {
      TwoCuts(Show(v), otherTail, Show(w), tail);
      if |w| == |v| {
        assert Show(w)[2..|w| + 2] == w && Show(v)[2..|v| + 2] == v;
      } else {
        DottedOverhang(segments, other);
      }
    }
  }

  /** The end of a closed bracket, perhaps without its quote. */
  predicate EndsBracket(s: string) { s != "" && s[|s| - 1] == ']' && (|s| >= 2 ==> Closes(s)) }

  lemma {:induction false} EndOf(s: string, k: nat)
    requires Closes(s) && k < |s|
    ensures EndsBracket(s[k..])
  {
  }

  lemma {:induction false} ClosesLater(segments: seq<string>, front: string, back: string)
    requires segments != [] && AllPlain(segments[1..]) && ShowAll(segments[1..]) == front + back
    requires EndsBracket(front) && (back == "" || back[0] == '.')
    ensures exists j :: 1 <= j < |segments| && Closes(segments[j])
  {
    hide ShowAll;
    var rest := segments[1..];
    Head(rest);
    assert rest[0] in rest;
    assert front[0] == ShowAll(rest)[0] == '.';
    ClosedAtEnd(rest, front, back);
    var j :| 0 <= j < |rest| && Closes(rest[j]);
    assert segments[j + 1] == rest[j];
  }

  lemma {:induction false} DottedOverhang(segments: seq<string>, other: seq<string>)
    requires segments != [] && other != [] && Dotted(segments[0]) && Dotted(other[0]) && AllPlain(segments[1..])
    requires |segments[0]| > |other[0]|
    requires Show(segments[0]) + ShowAll(segments[1..]) == Show(other[0]) + ShowAll(other[1..])
    ensures Breaks(segments[0]) || exists j :: 1 <= j < |segments| && Closes(segments[j])
  {
    hide ShowAll, Closes, Show, Breaks, EndsBracket;
    var w, v, tail, otherTail := segments[0], other[0], ShowAll(segments[1..]), ShowAll(other[1..]);
    ShowIs(w);
    ShowIs(v);
    TwoCuts(Show(v), otherTail, Show(w), tail);
    var over := Show(w)[|v| + 4..];
    EarlyClose(w, v, over);
    CutBracket(w, |v|);
    Head(other[1..]);
    assert otherTail[0] == over[0];
    if over[0] == '.' {
      DottedBreak(w, |v|, over);
    } else {
      var run, back := Run(other[1..]);
      if |run| > |over| {
        TwoCuts(over, tail, run, back);
        EndOf(run, |over|);
        ClosesLater(segments, run[|over|..], back);
      } else {
        TwoCuts(run, back, over, tail);
        InnerRun(w, |v|, over, run);
      }
    }
  }

  lemma {:induction false} EarlyClose(w: string, v: string, over: string)
    requires Dotted(w) && Dotted(v) && |w| > |v| && Show(w) == Show(v) + over
    ensures |v| + 2 <= |w| && w[|v|] == '"' && w[|v| + 1] == ']' && w[..|v|] == v
  {
    var s, k := Show(w), |v|;
    assert s == "[\"" + w + "\"]" && Show(v) == "[\"" + v + "\"]";
    assert s[k + 2] == '"' && s[k + 3] == ']';
    assert s[2..k + 2] == v && s[2..|w| + 2] == w;
  }

  lemma {:induction false} DottedBreak(w: string, k: nat, over: string)
    requires k + 2 <= |w| && w[k] == '"' && w[k + 1] == ']' && Has(w[..k], '.') && over == w[k + 2..] + "\"]"
    requires over[0] == '.'
    ensures Breaks(w)
  {
    assert k + 2 < |w| && w[k + 2] == over[0];
    assert BreaksAt(w, k);
  }

  lemma {:induction false} InnerRun(w: string, k: nat, over: string, run: string)
    requires k + 2 <= |w| && w[k] == '"' && w[k + 1] == ']' && Has(w[..k], '.') && over == w[k + 2..] + "\"]"
    requires |run| <= |over| && run == over[..|run|]
    requires |run| >= 4 && OpensAt(run, 0) && Has(run[2..|run| - 2], '.')
    ensures Breaks(w)
  {
    var p :| 0 <= p < |run| - 4 && run[2..|run| - 2][p] == '.';
    assert w[k + 4 + p] == over[p + 2] == run[p + 2] == '.';
    assert w[k + 2] == run[0] && w[k + 3] == run[1];
    assert w[k + 4..][p] == '.';
    assert BreaksAt(w, k);
  }

  lemma {:induction false} TailIsUnambiguous(segments: seq<string>)
    requires segments != [] && !Ambiguous(segments)
    ensures AllPlain(segments[1..]) && !Ambiguous(segments[1..])
  {
    hide Closes, Opens, Breaks;
    var rest := segments[1..];
    assert forall j :: 0 <= j < |rest| ==> rest[j] == segments[j + 1];
  }

  /** A display that is not ambiguous has one reading only, whatever its segments hold. */
  lemma {:induction false} OneReading(segments: seq<string>, other: seq<string>)
    requires ShowAll(segments) == ShowAll(other) && !Ambiguous(segments)
    ensures segments == other
    decreases |segments|
  {
    hide ShowAll, Closes, Opens, Breaks;
    Head(segments);
    Head(other);
    if segments != [] {
      TailIsUnambiguous(segments);
      assert segments == [segments[0]] + segments[1..] && other == [other[0]] + other[1..];
      if Dotted(segments[0]) {
        DottedHeads(segments, other);
      } else {
        PlainHeads(segments, other);
      }
      OneReading(segments[1..], other[1..]);
    }
  }

  // ----- a second reading -----

  /** Split at its dots, a string is read as plain segments. */
  lemma {:induction false} SplitIsShown(s: string)
    ensures AllPlain(Split(s, '.')) && ShowAll(Split(s, '.')) == "." + s
    ensures Dotted(s) ==> |Split(s, '.')| >= 2
  {
    hide ShowAll, Show;
    if s == "" {
      ShowAllOne("");
      ShowIs("");
    } else {
      var more, pieces := Split(s[1..], '.'), Split(s, '.');
      SplitIsShown(s[1..]);
      assert s == [s[0]] + s[1..];
      assert more[0] in more && forall p <- more[1..] :: p in more;
      ShowAllStep(pieces);
      if s[0] == '.' {
        ShowIs("");
        assert pieces[1..] == more;
      } else {
        LongerFirst(s[0], more, pieces);
        assert ("." + s[1..])[1..] == s[1..];
      }
    }
  }

  lemma {:induction false} LongerFirst(c: char, more: seq<string>, pieces: seq<string>)
    requires more != [] && AllPlain(more) && c != '.' && pieces == [[c] + more[0]] + more[1..]
    ensures AllPlain(pieces) && ShowAll(more) != "" && ShowAll(pieces) == "." + ([c] + ShowAll(more)[1..])
  {
    hide ShowAll, Show, AllPlain;
    StillPlain(c, more, pieces);
    ShowAllStep(more);
    ShowAllStep(pieces);
    assert pieces[1..] == more[1..];
    ShowIs(more[0]);
    ShowIs(pieces[0]);
    Regroup(c, more[0], ShowAll(more[1..]));
  }

  lemma {:induction false} StillPlain(c: char, more: seq<string>, pieces: seq<string>)
    requires more != [] && AllPlain(more) && c != '.' && pieces == [[c] + more[0]] + more[1..]
    ensures AllPlain(pieces) && !Dotted(more[0]) && !Dotted(pieces[0])
  {
    assert more[0] in more && forall p <- more[1..] :: p in more;
  }

  lemma {:induction false} Regroup(c: char, piece: string, tail: string)
    ensures (("." + piece) + tail)[1..] == piece + tail
    ensures ("." + ([c] + piece)) + tail == "." + ([c] + (piece + tail))
  {
  }

  /** Replacing some segments by others with the same display keeps the whole display. */
  lemma {:induction false} ShowAllReplace(front: seq<string>, middle: seq<string>, other: seq<string>,
                                          back: seq<string>)
    requires ShowAll(middle) == ShowAll(other)
    ensures ShowAll(front + middle + back) == ShowAll(front + other + back)
  {
    hide ShowAll;
    ShowAllAppend(front + middle, back);
    ShowAllAppend(front, middle);
    ShowAllAppend(front + other, back);
    ShowAllAppend(front, other);
  }

  /** A quoted bracket with a dot in it can be read as one segment. */
  lemma {:induction false} Bracketed(p: string)
    requires |p| >= 4 && OpensAt(p, 0) && Closes(p) && Has(p[2..|p| - 2], '.')
    ensures ShowAll([p[2..|p| - 2]]) == p
  {
    hide ShowAll;
    ShowAllOne(p[2..|p| - 2]);
    ShowIs(p[2..|p| - 2]);
  }

  lemma {:induction false} ClosesWithLast(segments: seq<string>)
    requires segments != [] && Closes(segments[|segments| - 1])
    ensures Closes(ShowAll(segments))
  {
    hide ShowAll;
    var n := |segments| - 1;
    assert segments == segments[..n] + [segments[n]];
    ShowAllAppend(segments[..n], [segments[n]]);
    ShowAllOne(segments[n]);
  }

  /** A dotted segment behind another one: the two brackets merge, or the inner one is read plainly. */
  lemma {:induction false} ShareBehind(segments: seq<string>, k: nat) returns (other: seq<string>)
    requires 1 <= k < |segments| && Dotted(segments[k])
    ensures other != segments && ShowAll(other) == ShowAll(segments)
  {
    hide ShowAll, Show, AllPlain;
    var x, w, front, back := segments[k - 1], segments[k], segments[..k - 1], segments[k + 1..];
    assert segments == front + [x, w] + back;
    if Dotted(x) {
      PairIsShown(x, w);
      other := front + [x + "\"][\"" + w] + back;
      MergedPair(x, w);
      ShowAllReplace(front, [x, w], [x + "\"][\"" + w], back);
    } else {
      var pieces := PlainPair(x, w);
      other := front + pieces + back;
      ShowAllReplace(front, [x, w], pieces, back);
      assert other[k] == pieces[1] && !Dotted(pieces[1]) by { PlainAt(pieces, 1); }
    }
  }

  lemma {:induction false} PlainAt(segments: seq<string>, k: nat)
    requires AllPlain(segments) && k < |segments|
    ensures !Dotted(segments[k])
  {
  }

  lemma {:induction false} PlainPair(x: string, w: string) returns (pieces: seq<string>)
    requires !Dotted(x) && Dotted(w)
    ensures |pieces| >= 2 && AllPlain(pieces) && ShowAll(pieces) == ShowAll([x, w])
  {
    hide ShowAll, Show, Split;
    pieces := Split(x + Show(w), '.');
    SplitIsShown(x + Show(w));
    PairIsShown(x, w);
    ShowIs(x);
    InnerDot(x, w);
    assert ("." + x) + Show(w) == "." + (x + Show(w));
  }

  lemma {:induction false} PairIsShown(x: string, w: string)
    ensures ShowAll([x, w]) == Show(x) + Show(w)
  {
    hide ShowAll, Show;
    ShowAllAppend([x], [w]);
    ShowAllOne(x);
    ShowAllOne(w);
    assert [x] + [w] == [x, w];
  }

  lemma {:induction false} MergedPair(x: string, w: string)
    requires Dotted(x) && Dotted(w)
    ensures ShowAll([x + "\"][\"" + w]) == Show(x) + Show(w)
  {
    hide ShowAll, Show;
    var both := x + "\"][\"" + w;
    ShowAllOne(both);
    var k :| 0 <= k < |x| && x[k] == '.';
    assert both[k] == '.';
    ShowIs(both);
    ShowIs(x);
    ShowIs(w);
    TwoBrackets(x, w);
  }

  lemma {:induction false} TwoBrackets(v: string, over: string)
    ensures "[\"" + (v + "\"][\"" + over) + "\"]" == ("[\"" + v + "\"]") + ("[\"" + over + "\"]")
  {
  }

  lemma {:induction false} OneBracket(v: string, over: string)
    ensures "[\"" + (v + "\"]" + over) + "\"]" == ("[\"" + v + "\"]") + (over + "\"]")
  {
  }

  lemma {:induction false} InnerDot(x: string, w: string)
    requires Dotted(w)
    ensures Dotted(x + Show(w))
  {
    ShowIs(w);
    var k :| 0 <= k < |w| && w[k] == '.';
    assert (x + Show(w))[|x| + 2 + k] == '.';
  }

  /** The bracket around the first segment closes behind a later one. */
  lemma {:induction false} ShareLater(segments: seq<string>, j: nat) returns (other: seq<string>)
    requires 1 <= j < |segments| && Dotted(segments[0]) && Closes(segments[j])
    ensures other != segments && ShowAll(other) == ShowAll(segments)
  {
    hide ShowAll, Closes;
    var w, middle, back := segments[0], segments[..j + 1], segments[j + 1..];
    assert segments == [] + middle + back;
    var p := ShowAll(middle);
    ClosesWithLast(middle);
    ShowAllStep(middle);
    DotInside(p, w, ShowAll(middle[1..]));
    var c := p[2..|p| - 2];
    Bracketed(p);
    other := [] + [c] + back;
    ShowAllReplace([], middle, [c], back);
    assert |other| < |segments|;
  }

  lemma {:induction false} DotInside(p: string, w: string, tail: string)
    requires p == Show(w) + tail && Dotted(w)
    ensures |p| >= |w| + 4 && OpensAt(p, 0) && Has(p[2..|p| - 2], '.')
    ensures tail == "" || Closes(tail) ==> Closes(p)
  {
    hide Show;
    ShowIs(w);
    var k :| 0 <= k < |w| && w[k] == '.';
    assert p[2..|p| - 2][k] == '.';
  }

  /** The bracket around the first segment closes sooner. */
  lemma {:induction false} ShareSooner(segments: seq<string>, k: nat) returns (other: seq<string>)
    requires segments != [] && k < |segments[0]| && BreaksAt(segments[0], k)
    ensures other != segments && ShowAll(other) == ShowAll(segments)
  {
    hide ShowAll, Show, Split;
    var w, back := segments[0], segments[1..];
    var v, over := w[..k], w[k + 2..];
    assert segments == [] + [w] + back;
    CutBracket(w, k);
    ShowAllOne(w);
    var tail;
    if over[0] == '.' {
      tail := Split(over[1..] + "\"]", '.');
      SplitIsShown(over[1..] + "\"]");
      assert "." + (over[1..] + "\"]") == over + "\"]";
    } else {
      tail := [over[2..]];
      ShowAllOne(over[2..]);
      assert over[2..] == w[k + 4..];
      ShowIs(over[2..]);
      assert "[\"" + over[2..] + "\"]" == over + "\"]";
    }
    ShowAllAppend([v], tail);
    ShowAllOne(v);
    other := [] + ([v] + tail) + back;
    ShowAllReplace([], [w], [v] + tail, back);
    assert other[0] == v;
  }

  lemma {:induction false} CutBracket(w: string, k: nat)
    requires k + 2 <= |w| && w[k] == '"' && w[k + 1] == ']' && Has(w[..k], '.')
    ensures Dotted(w) && Show(w) == Show(w[..k]) + (w[k + 2..] + "\"]")
  {
    hide Show;
    var v, over := w[..k], w[k + 2..];
    var d :| 0 <= d < k && v[d] == '.';
    assert w[d] == '.';
    ShowIs(w);
    ShowIs(v);
    assert w == v + "\"]" + over;
    OneBracket(v, over);
  }

  /** A bracket opens in a plain segment and closes behind a later one. */
  lemma {:induction false} ShareOpened(segments: seq<string>, i: nat, j: nat, k: nat) returns (other: seq<string>)
    requires i < j < |segments| && !Dotted(segments[i]) && !Dotted(segments[i + 1])
    requires k < |segments[i]| && OpensAt(segments[i], k) && Closes(segments[j])
    ensures other != segments && ShowAll(other) == ShowAll(segments)
  {
    hide ShowAll, Closes, Show, OpensAt;
    var a, front, later, back := segments[i], segments[..i], segments[i + 1..j + 1], segments[j + 1..];
    assert segments == front + ([a] + later) + back;
    ClosesWithLast(later);
    Head(later);
    var u, c := Reopened(a, k, later);
    other := front + ([u] + [c]) + back;
    ShowAllReplace(front, [a] + later, [u] + [c], back);
    assert other[i] == u;
  }

  /** A plain segment cut where a bracket opens, and that bracket up to its end. */
  lemma {:induction false} Reopened(a: string, k: nat, later: seq<string>) returns (u: string, c: string)
    requires k < |a| && !Dotted(a) && OpensAt(a, k) && Closes(ShowAll(later)) && ShowAll(later)[0] == '.'
    ensures |u| < |a| && ShowAll([u] + [c]) == ShowAll([a] + later)
  {
    hide ShowAll, Closes, Show, OpensAt, Has;
    var tail := ShowAll(later);
    u := a[..k];
    CutPlain(a, k, tail);
    BracketBehind(a[k..], tail);
    var p := a[k..] + tail;
    c := p[2..|p| - 2];
    Bracketed(p);
    ShowAllAppend([a], later);
    ShowAllAppend([u], [c]);
    ShowAllOne(a);
    ShowAllOne(u);
  }

  lemma {:induction false} CutPlain(a: string, k: nat, tail: string)
    requires !Dotted(a) && OpensAt(a, k)
    ensures OpensAt(a[k..], 0) && Show(a) + tail == Show(a[..k]) + (a[k..] + tail)
  {
    hide Show, Has;
    var u, v := a[..k], a[k..];
    PlainFront(a, k);
    ShowIs(a);
    ShowIs(u);
    assert a == u + v;
    Associate(u, v, tail);
  }

  lemma {:induction false} PlainFront(a: string, k: nat)
    requires k <= |a| && !Dotted(a)
    ensures '.' !in a && '.' !in a[..k]
  {
  }

  lemma {:induction false} Associate(u: string, v: string, tail: string)
    ensures ("." + (u + v)) + tail == ("." + u) + (v + tail)
  {
  }

  lemma {:induction false} BracketBehind(v: string, tail: string)
    requires OpensAt(v, 0) && Closes(tail) && tail[0] == '.'
    ensures var p := v + tail; |p| >= 4 && OpensAt(p, 0) && Closes(p) && Has(p[2..|p| - 2], '.')
  {
    var p := v + tail;
    assert p[2..|p| - 2][|v| - 2] == '.';
  }

  lemma {:induction false} AnotherReading(segments: seq<string>) returns (other: seq<string>)
    requires Ambiguous(segments)
    ensures other != segments && ShowAll(other) == ShowAll(segments)
  {
    hide ShowAll, Closes, OpensAt, BreaksAt, Dotted;
    if k :| 1 <= k < |segments| && Dotted(segments[k]) {
      other := ShareBehind(segments, k);
    } else if j :| segments != [] && Dotted(segments[0]) && 1 <= j < |segments| && Closes(segments[j]) {
      other := ShareLater(segments, j);
    } else if segments != [] && Dotted(segments[0]) && Breaks(segments[0]) {
      var k :| 0 <= k < |segments[0]| && BreaksAt(segments[0], k);
      other := ShareSooner(segments, k);
    } else {
      var i, j :| 0 <= i < j < |segments| && !Dotted(segments[i]) && Opens(segments[i]) && Closes(segments[j]);
      var k :| 0 <= k < |segments[i]| && OpensAt(segments[i], k);
      other := ShareOpened(segments, i, j, k);
    }
  }

  // ----- paths -----

  ghost predicate IsPath(path: seq<string>) { path != [] && path[0] == "input" }

  /** Another path has the same display. */
  ghost predicate IsShared(path: seq<string>) {
    exists other :: IsPath(other) && other != path && Format(other) == Format(path)
  }

  lemma {:induction false} SameDisplay(path: seq<string>, other: seq<string>)
    requires IsPath(path) && IsPath(other)
    ensures Format(other) == Format(path) <==> ShowAll(other[1..]) == ShowAll(path[1..])
    ensures other == path <==> other[1..] == path[1..]
  {
    hide ShowAll;
    assert Format(other)[5..] == ShowAll(other[1..]) && Format(path)[5..] == ShowAll(path[1..]);
    assert other == ["input"] + other[1..] && path == ["input"] + path[1..];
  }

  /** A path shares its display exactly when its segments are ambiguous. */
  lemma {:induction false} SharedIff(path: seq<string>)
    requires IsPath(path)
    ensures IsShared(path) <==> Ambiguous(path[1..])
  {
    hide Format, ShowAll, Ambiguous;
    var segments := path[1..];
    if Ambiguous(segments) {
      var other := AnotherReading(segments);
      assert (["input"] + other)[1..] == other;
      SameDisplay(path, ["input"] + other);
    }
    if IsShared(path) {
      var other :| IsPath(other) && other != path && Format(other) == Format(path);
      SameDisplay(path, other);
      if !Ambiguous(segments) {
        OneReading(segments, other[1..]);
      }
    }
  }

  /** For readable segments: a dotted one behind the first, or a dotted first one and a later one that
      ends in a closed bracket. */
  lemma {:induction false} ReadableSharedIff(path: seq<string>)
    requires IsPath(path) && forall i :: 1 <= i < |path| ==> Readable(path[i])
    ensures IsShared(path) <==>
              || (exists k :: 2 <= k < |path| && Dotted(path[k]))
              || (|path| > 1 && Dotted(path[1]) && exists j :: 2 <= j < |path| && Closes(path[j]))
  {
    hide IsShared, Closes;
    SharedIff(path);
    var segments := path[1..];
    assert forall i :: 0 <= i < |segments| ==> segments[i] == path[i + 1];
    assert forall i :: 2 <= i < |path| ==> path[i] == segments[i - 1];
  }

  /** A readable path that shares its display, and one that is not readable and does not. */
  lemma {:induction false} SharingExamples()
    ensures Readable("a.b") && Readable("c.d") && IsShared(["input", "a.b", "c.d"])
    ensures !Readable("a[") && !IsShared(["input", "a["])
  {
    hide IsShared;
    assert "a.b"[1] == '.' && "c.d"[1] == '.' && "a["[1] == '[';
    var pair := ["input", "a.b", "c.d"];
    SharedIff(pair);
    assert pair[1..][1] == "c.d" && Dotted(pair[1..][1]);
    assert Ambiguous(pair[1..]);
    SharedIff(["input", "a["]);
    assert ["input", "a["][1..] == ["a["];
  }
}
