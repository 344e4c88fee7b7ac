/** The record pattern of `read_fx_t`,
      ^\s*(\d+)\s+(NUM)\s+(NUM)\s+(NUM)
    with NUM the numeral of module Numeral, applied with `re.match` to one
    line: anchored at the start of the line, with no anchor at its end. */
module LinePattern {
  import opened Numeral

  /** A line cut the way a successful match cuts it: leading whitespace, the
      node digits (group 1), the three numerals (groups 2 to 4), the
      whitespace between them, and the unexamined rest of the line. */
  datatype Cut = Cut(indent: string, node: string, gap1: string, fx: Numeral, gap2: string,
                     t: Numeral, gap3: string, qi: Numeral, rest: string)

  /** The line a cut was taken from. */
  function Joined(c: Cut): string {
    c.indent + (c.node + (c.gap1 + (Text(c.fx) + (c.gap2 + (Text(c.t) + (c.gap3 + (Text(c.qi) + c.rest)))))))
  }

  /** Every part of the cut has the shape the pattern demands of it. */
  predicate Fits(c: Cut) {
    AllSpace(c.indent) && |c.node| > 0 && AllDigits(c.node) &&
    |c.gap1| > 0 && AllSpace(c.gap1) && WellFormed(c.fx) &&
    |c.gap2| > 0 && AllSpace(c.gap2) && WellFormed(c.t) &&
    |c.gap3| > 0 && AllSpace(c.gap3) && WellFormed(c.qi)
  }

  /** `\s+(NUM)`: at least one whitespace character, then a numeral; the
      whitespace, the numeral and what follows it. */
  function MatchField(s: string): (r: Option<(string, Numeral, string)>)
    ensures r.Some? ==> |r.value.0| > 0 && AllSpace(r.value.0) && WellFormed(r.value.1)
    ensures r.Some? ==> r.value.0 + (Text(r.value.1) + r.value.2) == s
  {
    var (gap, t) := SpanSpaces(s);
    if gap == [] then None
    else
      match ScanNumeral(t)
      case None => None
      case Some((n, rest)) => Some((gap, n, rest))
  }

  /** `pattern.match(line)`: the cut the matcher finds, or `None` when the line
      does not begin with a record. A cut it returns has the pattern's shape
      and is a cut of `line`. */
  function MatchLine(line: string): (r: Option<Cut>)
    ensures r.Some? ==> Fits(r.value) && Joined(r.value) == line
  {
    var (indent, s1) := SpanSpaces(line);
    var (node, s2) := SpanDigits(s1);
    if node == [] then None else MatchFields(indent, node, s2)
  }

  /** The three `\s+(NUM)` fields after the node, `s2` being the text that
      follows the node's digits. */
  function MatchFields(indent: string, node: string, s2: string): (r: Option<Cut>)
    requires AllSpace(indent) && |node| > 0 && AllDigits(node)
    ensures r.Some? ==> Fits(r.value) && Joined(r.value) == indent + (node + s2)
  {
    match MatchField(s2)
    case None => None
    case Some((gap1, fx, s4)) =>
      match MatchField(s4)
      case None => None
      case Some((gap2, t, s6)) =>
        match MatchField(s6)
        case None => None
        case Some((gap3, qi, rest)) => Some(Cut(indent, node, gap1, fx, gap2, t, gap3, qi, rest))
  }

  /** A numeral begins with a sign or a digit, never with whitespace. */
  lemma TextStart(n: Numeral, x: string)
    requires WellFormed(n)
    ensures |Text(n) + x| > 0 && !IsSpace((Text(n) + x)[0])
  {
    assert IsDigit(n.whole[0]);
    assert (Text(n) + x)[0] == (SignText(n.sign) + n.whole)[0];
  }

  /** After whitespace, the field is whatever numeral the scanner reads. */
  lemma MatchFieldGap(gap: string, n: Numeral, x: string)
    requires |gap| > 0 && AllSpace(gap) && WellFormed(n)
    ensures MatchField(gap + (Text(n) + x)) ==
      match ScanNumeral(Text(n) + x)
      case None => None
      case Some((m, rest)) => Some((gap, m, rest))
  {
    TextStart(n, x);
    SpanSpacesOf(gap, Text(n) + x);
  }

  /** A field followed by text that cannot carry its numeral on is read back exactly. */
  lemma MatchFieldToken(gap: string, n: Numeral, rest: string)
    requires |gap| > 0 && AllSpace(gap) && WellFormed(n) && Delimits(rest)
    ensures MatchField(gap + (Text(n) + rest)) == Some((gap, n, rest))
  {
    MatchFieldGap(gap, n, rest);
    ScanNumeralToken(n, rest);
  }

  /** Whitespace cannot carry a numeral on. */
  lemma GapDelimits(gap: string, x: string)
    requires |gap| > 0 && AllSpace(gap)
    ensures Delimits(gap + x) && (gap + x)[0] == gap[0]
  {
  }

  /** On a line of the pattern's shape the matcher gets as far as the fourth
      field with the line's own indentation, node, fields and gaps; what it
      returns is then decided by the numeral scan of the rest of the line. */
  lemma MatchLineUpToFourth(c: Cut)
    requires Fits(c)
    ensures MatchLine(Joined(c)) ==
      match ScanNumeral(Text(c.qi) + c.rest)
      case None => None
      case Some((qi, rest)) => Some(c.(qi := qi, rest := rest))
  {
    var s6 := c.gap3 + (Text(c.qi) + c.rest);
    var s4 := c.gap2 + (Text(c.t) + s6);
    var s2 := c.gap1 + (Text(c.fx) + s4);
    var s1 := c.node + s2;
    assert Joined(c) == c.indent + s1;
    assert s1[0] == c.node[0];
    SpanSpacesOf(c.indent, s1);
    GapDelimits(c.gap1, Text(c.fx) + s4);
    SpanDigitsOf(c.node, s2);
    MatchFieldsUpToFourth(c);
  }

  lemma MatchFieldsUpToFourth(c: Cut)
    requires Fits(c)
    ensures MatchFields(c.indent, c.node, c.gap1 + (Text(c.fx) + (c.gap2 + (Text(c.t) + (c.gap3 + (Text(c.qi) + c.rest)))))) ==
      match ScanNumeral(Text(c.qi) + c.rest)
      case None => None
      case Some((qi, rest)) => Some(c.(qi := qi, rest := rest))
  {
    var s6 := c.gap3 + (Text(c.qi) + c.rest);
    var s4 := c.gap2 + (Text(c.t) + s6);
    GapDelimits(c.gap2, Text(c.t) + s6);
    MatchFieldToken(c.gap1, c.fx, s4);
    GapDelimits(c.gap3, Text(c.qi) + c.rest);
    MatchFieldToken(c.gap2, c.t, s6);
    MatchFieldGap(c.gap3, c.qi, c.rest);
  }

  /** Every line of the pattern's shape is matched, and the matcher recovers
      its indentation, node, FX and T fields and the whitespace between them
      exactly; the fourth field it takes is the longest numeral there. So the
      pattern's groups 1 to 3 do not depend on how the line might otherwise be
      cut, and matching succeeds exactly on the lines of this shape. */
  lemma MatchLineComplete(c: Cut)
    requires Fits(c)
    ensures var r := MatchLine(Joined(c));
      r.Some? && r.value.indent == c.indent && r.value.node == c.node && r.value.gap1 == c.gap1 &&
      r.value.fx == c.fx && r.value.gap2 == c.gap2 && r.value.t == c.t && r.value.gap3 == c.gap3 &&
      |r.value.rest| <= |c.rest|
  {
    MatchLineUpToFourth(c);
    ScanNumeralLongest(c.qi, c.rest);
  }

  /** When what follows the fourth field cannot carry a numeral on (it is
      empty, or begins with whitespace or any other character that is not a
      digit, `.`, `e` or `E`), the matcher returns the line's own cut. */
  lemma MatchLineExact(c: Cut)
    requires Fits(c) && Delimits(c.rest)
    ensures MatchLine(Joined(c)) == Some(c)
  {
    MatchLineUpToFourth(c);
    ScanNumeralToken(c.qi, c.rest);
  }

  /** A line is skipped exactly when no cut of it has the pattern's shape. */
  lemma MatchLineNone(line: string)
    ensures MatchLine(line).None? <==> forall c :: Fits(c) ==> Joined(c) != line
  {
    if MatchLine(line).None? {
      forall c | Fits(c)
        ensures Joined(c) != line
      {
        MatchLineComplete(c);
      }
    }
  }

  /** Anything appended to a matching line leaves the node, FX and T fields
      (and everything before them) as they were: the pattern has no end anchor. */
  lemma MatchLineTrailing(line: string, extra: string)
    requires MatchLine(line).Some?
    ensures var r := MatchLine(line + extra); var c := MatchLine(line).value;
      r.Some? && r.value.indent == c.indent && r.value.node == c.node && r.value.gap1 == c.gap1 &&
      r.value.fx == c.fx && r.value.gap2 == c.gap2 && r.value.t == c.t && r.value.gap3 == c.gap3
  {
    var c := MatchLine(line).value;
    var longer := c.(rest := c.rest + extra);
    JoinedExtend(c, extra);
    MatchLineComplete(longer);
  }

  /** Appending one whitespace character to a line, such as the line feed
      that ends every line read from a file, does not change whether it
      matches: no numeral ends in whitespace, so the character falls in the
      unexamined rest. */
  lemma MatchLineSpaceAfter(line: string, ch: char)
    requires IsSpace(ch)
    ensures MatchLine(line + [ch]).Some? <==> MatchLine(line).Some?
  {
    if MatchLine(line).Some? {
      MatchLineTrailing(line, [ch]);
    } else if MatchLine(line + [ch]).Some? {
      var r := MatchLine(line + [ch]).value;
      var r0 := DropSpaceAfter(r, line, ch);
      MatchLineComplete(r0);
    }
  }

  /** A cut of a line ending in whitespace gives a cut of the line without it. */
  lemma DropSpaceAfter(c: Cut, line: string, ch: char) returns (c0: Cut)
    requires Fits(c) && Joined(c) == line + [ch] && IsSpace(ch)
    ensures Fits(c0) && Joined(c0) == line
  {
    JoinedEnd(c);
    assert c.rest != [];
    c0 := c.(rest := c.rest[..|c.rest| - 1]);
    assert c0.rest + [c.rest[|c.rest| - 1]] == c.rest;
    JoinedExtend(c0, [c.rest[|c.rest| - 1]]);
    assert Joined(c0) + [c.rest[|c.rest| - 1]] == line + [ch];
    assert Joined(c0) == (line + [ch])[..|line|];
  }

  /** A line cut with nothing after its fourth field ends in a digit. */
  lemma JoinedEnd(c: Cut)
    requires Fits(c)
    ensures var s := Joined(c); |s| > 0 && (c.rest == [] ==> IsDigit(s[|s| - 1]))
  {
    var s7 := Text(c.qi) + c.rest;
    TextEndsInDigit(c.qi);
    var s6 := c.gap3 + s7;
    var s5 := Text(c.t) + s6;
    var s4 := c.gap2 + s5;
    var s3 := Text(c.fx) + s4;
    var s2 := c.gap1 + s3;
    var s1 := c.node + s2;
    LastOfAppend(c.gap3, s7);
    LastOfAppend(Text(c.t), s6);
    LastOfAppend(c.gap2, s5);
    LastOfAppend(Text(c.fx), s4);
    LastOfAppend(c.gap1, s3);
    LastOfAppend(c.node, s2);
    LastOfAppend(c.indent, s1);
    if c.rest == [] {
      assert s7 == Text(c.qi);
    }
  }

  lemma LastOfAppend(a: string, x: string)
    requires |x| > 0
    ensures |a + x| > 0 && (a + x)[|a + x| - 1] == x[|x| - 1]
  {
  }

  /** Extending the rest of a cut extends the line by the same text. */
  lemma JoinedExtend(c: Cut, extra: string)
    ensures Joined(c.(rest := c.rest + extra)) == Joined(c) + extra
  {
    var s7 := Text(c.qi) + c.rest;
    var s6 := c.gap3 + s7;
    var s5 := Text(c.t) + s6;
    var s4 := c.gap2 + s5;
    var s3 := Text(c.fx) + s4;
    var s2 := c.gap1 + s3;
    var s1 := c.node + s2;
    PrependExtend(Text(c.qi), c.rest, extra);
    PrependExtend(c.gap3, s7, extra);
    PrependExtend(Text(c.t), s6, extra);
    PrependExtend(c.gap2, s5, extra);
    PrependExtend(Text(c.fx), s4, extra);
    PrependExtend(c.gap1, s3, extra);
    PrependExtend(c.node, s2, extra);
    PrependExtend(c.indent, s1, extra);
  }

  lemma PrependExtend(a: string, x: string, extra: string)
    ensures a + (x + extra) == (a + x) + extra
  {
  }
}
