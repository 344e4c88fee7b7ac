/** Concrete lines of an ESATAN output file and what `read_fx_t` makes of
    them. A record line is given by its cut (the line is `Joined` of it; its
    text is in the comment), a line that is not a record as the
    concatenation of a few literal pieces. */
module Examples {
  import opened Numeral
  import opened LinePattern
  import opened Extraction

  /** The numeral of the digits `d`, with no sign, fraction or exponent. */
  function Int(d: string): Numeral {
    Numeral(Unsigned, d, [], None)
  }

  /** The numeral `d.f`. */
  function Fixed(d: string, f: string): Numeral {
    Numeral(Unsigned, d, f, None)
  }

  lemma Value1()
    ensures DigitsValue("1") == 1
  {
    DigitsValueSnoc("", '1');
    assert "" + ['1'] == "1";
  }

  lemma Value2()
    ensures DigitsValue("2") == 2
  {
    DigitsValueSnoc("", '2');
    assert "" + ['2'] == "2";
  }

  lemma Value5()
    ensures DigitsValue("5") == 5
  {
    DigitsValueSnoc("", '5');
    assert "" + ['5'] == "5";
  }

  lemma Value10()
    ensures DigitsValue("10") == 10
  {
    DigitsValueSnoc("", '1');
    assert "" + ['1'] == "1";
    DigitsValueSnoc("1", '0');
    assert "1" + ['0'] == "10";
  }

  lemma Value20()
    ensures DigitsValue("20") == 20
  {
    DigitsValueSnoc("", '2');
    assert "" + ['2'] == "2";
    DigitsValueSnoc("2", '0');
    assert "2" + ['0'] == "20";
  }

  lemma Value02()
    ensures DigitsValue("02") == 2
  {
    DigitsValueSnoc("", '0');
    assert "" + ['0'] == "0";
    DigitsValueSnoc("0", '2');
    assert "0" + ['2'] == "02";
  }

  lemma Value100()
    ensures DigitsValue("100") == 100
  {
    DigitsValueSnoc("", '1');
    assert "" + ['1'] == "1";
    DigitsValueSnoc("1", '0');
    assert "1" + ['0'] == "10";
    DigitsValueSnoc("10", '0');
    assert "10" + ['0'] == "100";
  }

  lemma Value200()
    ensures DigitsValue("200") == 200
  {
    DigitsValueSnoc("", '2');
    assert "" + ['2'] == "2";
    DigitsValueSnoc("2", '0');
    assert "2" + ['0'] == "20";
    DigitsValueSnoc("20", '0');
    assert "20" + ['0'] == "200";
  }

  lemma Value12345()
    ensures DigitsValue("12345") == 12345
  {
    DigitsValueSnoc("", '1');
    assert "" + ['1'] == "1";
    DigitsValueSnoc("1", '2');
    assert "1" + ['2'] == "12";
    DigitsValueSnoc("12", '3');
    assert "12" + ['3'] == "123";
    DigitsValueSnoc("123", '4');
    assert "123" + ['4'] == "1234";
    DigitsValueSnoc("1234", '5');
    assert "1234" + ['5'] == "12345";
  }

  lemma Value27315()
    ensures DigitsValue("27315") == 27315
  {
    DigitsValueSnoc("", '2');
    assert "" + ['2'] == "2";
    DigitsValueSnoc("2", '7');
    assert "2" + ['7'] == "27";
    DigitsValueSnoc("27", '3');
    assert "27" + ['3'] == "273";
    DigitsValueSnoc("273", '1');
    assert "273" + ['1'] == "2731";
    DigitsValueSnoc("2731", '5');
    assert "2731" + ['5'] == "27315";
  }

  lemma Value99998()
    ensures DigitsValue("99998") == 99998
  {
    DigitsValueSnoc("", '9');
    assert "" + ['9'] == "9";
    DigitsValueSnoc("9", '9');
    assert "9" + ['9'] == "99";
    DigitsValueSnoc("99", '9');
    assert "99" + ['9'] == "999";
    DigitsValueSnoc("999", '9');
    assert "999" + ['9'] == "9999";
    DigitsValueSnoc("9999", '8');
    assert "9999" + ['8'] == "99998";
  }

  lemma Value99999()
    ensures DigitsValue("99999") == 99999
  {
    DigitsValueSnoc("", '9');
    assert "" + ['9'] == "9";
    DigitsValueSnoc("9", '9');
    assert "9" + ['9'] == "99";
    DigitsValueSnoc("99", '9');
    assert "99" + ['9'] == "999";
    DigitsValueSnoc("999", '9');
    assert "999" + ['9'] == "9999";
    DigitsValueSnoc("9999", '9');
    assert "9999" + ['9'] == "99999";
  }

  /** `  100   1.2345E-02   273.15   0.000` */
  function TypicalCut(): Cut {
    Cut("  ", "100", "   ", Numeral(Unsigned, "1", "2345", Some(Exponent(true, Minus, "02"))),
        "   ", Fixed("273", "15"), "   ", Fixed("0", "000"), "")
  }

  /** The line this cut is taken from. */
  lemma TypicalLine()
    ensures Joined(TypicalCut()) == "  100   1.2345E-02   273.15   0.000"
  {
  }

  lemma TypicalFacts(c: Cut)
    requires c == TypicalCut()
    ensures Fits(c) && NodeNumber(c) == 100
    ensures Value(c.fx) == Decimal(12345, -6) && Value(c.t) == Decimal(27315, -2)
  {
    assert "1" + "2345" == "12345" && "273" + "15" == "27315";
    Value12345();
    Value27315();
    Value02();
    Value100();
  }

  /** A record of node 100 contributes FX = 0.012345 and T = 273.15. */
  lemma TypicalRecord(c: Cut)
    requires c == TypicalCut()
    ensures Contribution(Joined(c)) == Some((Decimal(12345, -6), Decimal(27315, -2)))
  {
    TypicalFacts(c);
    RecordLine(c);
  }

  /** `200   -5   10   0.5` */
  function SignedCut(): Cut {
    Cut("", "200", "   ", Numeral(Minus, "5", [], None), "   ", Int("10"), "   ", Fixed("0", "5"), "")
  }

  /** The line this cut is taken from. */
  lemma SignedLine()
    ensures Joined(SignedCut()) == "200   -5   10   0.5"
  {
  }

  lemma SignedFacts(c: Cut)
    requires c == SignedCut()
    ensures Fits(c) && NodeNumber(c) == 200
    ensures Value(c.fx) == Decimal(-5, 0) && Value(c.t) == Decimal(10, 0)
  {
    assert "10" + [] == "10" && "5" + [] == "5";
    Value5();
    Value10();
    Value200();
  }

  /** A record of node 200 with a negative FX: FX = -5 and T = 10. */
  lemma SignedRecord(c: Cut)
    requires c == SignedCut()
    ensures Contribution(Joined(c)) == Some((Decimal(-5, 0), Decimal(10, 0)))
  {
    SignedFacts(c);
    RecordLine(c);
  }

  /** `<node>   1.0   2.0   3.0` */
  function OnesCut(node: string): Cut {
    Cut("", node, "   ", Fixed("1", "0"), "   ", Fixed("2", "0"), "   ", Fixed("3", "0"), "")
  }

  lemma OnesFacts(node: string)
    requires |node| > 0 && AllDigits(node)
    ensures Fits(OnesCut(node))
    ensures Value(OnesCut(node).fx) == Decimal(10, -1) && Value(OnesCut(node).t) == Decimal(20, -1)
  {
    assert "1" + "0" == "10" && "2" + "0" == "20";
    Value10();
    Value20();
  }

  lemma SentinelNodes(node: string)
    requires node == "99998" || node == "99999" || node == "099999"
    ensures |node| > 0 && AllDigits(node) && DigitsValue(node) in Sentinels
  {
    if node == "99998" {
      assert AllDigits(node) && DigitsValue(node) == 99998 by { Sentinel99998(node); }
    } else if node == "99999" {
      assert AllDigits(node) && DigitsValue(node) == 99999 by { Sentinel99999(node); }
    } else {
      assert AllDigits(node) && DigitsValue(node) == 99999 by { LeadingZeroSentinel(node); }
    }
  }

  lemma Sentinel99998(node: string)
    requires node == "99998"
    ensures AllDigits(node) && DigitsValue(node) == 99998
  {
    Value99998();
  }

  lemma Sentinel99999(node: string)
    requires node == "99999"
    ensures AllDigits(node) && DigitsValue(node) == 99999
  {
    Value99999();
  }

  lemma LeadingZeroSentinel(node: string)
    requires node == "099999"
    ensures AllDigits(node) && DigitsValue(node) == 99999
  {
    Value99999();
    assert "0" + "99999" == node;
    DigitsValueLeadingZeros("0", "99999");
  }

  /** The records of nodes 99998 and 99999 contribute nothing, and neither
      does node `099999`: the node is compared as a number. */
  lemma SentinelRecords(node: string)
    requires node == "99998" || node == "99999" || node == "099999"
    ensures Contribution(Joined(OnesCut(node))).None?
  {
    SentinelNodes(node);
    OnesFacts(node);
    RecordLine(OnesCut(node));
  }

  /** The same record for node 100 is kept, with FX = 1.0 and T = 2.0. */
  lemma OrdinaryRecord(node: string)
    requires node == "100"
    ensures Contribution(Joined(OnesCut(node))) == Some((Decimal(10, -1), Decimal(20, -1)))
  {
    Value100();
    OnesFacts(node);
    RecordLine(OnesCut(node));
  }

  /** A column header is not a record. */
  lemma HeaderLine(line: string)
    requires line == "NODE  FX  T  QI"
    ensures MatchLine(line).None?
  {
    assert [] + line == line;
    SpanSpacesOf([], line);
    SpanDigitsOf([], line);
  }

  /** A blank line is not a record. */
  lemma BlankLine(line: string)
    requires line == ""
    ensures MatchLine(line).None?
  {
  }

  /** A signed node number is not a record. */
  lemma SignedNode(line: string)
    requires line == "+100 1 2 3"
    ensures MatchLine(line).None?
  {
    assert [] + line == line;
    SpanSpacesOf([], line);
    SpanDigitsOf([], line);
  }

  /** The line begins with the node `node`, `s2` following it. */
  lemma NodeAt(node: string, s2: string)
    requires |node| > 0 && AllDigits(node) && |s2| > 0 && !IsDigit(s2[0])
    ensures SpanSpaces(node + s2) == ([], node + s2)
    ensures SpanDigits(node + s2) == (node, s2)
  {
    assert (node + s2)[0] == node[0];
    assert [] + (node + s2) == node + s2;
    SpanSpacesOf([], node + s2);
    SpanDigitsOf(node, s2);
  }

  /** `100abc 1 2 3`: a node number glued to letters is not a record. */
  lemma GluedNode(node: string, rest: string)
    requires node == "100" && rest == "abc 1 2 3"
    ensures MatchLine(node + rest).None?
  {
    NodeAt(node, rest);
    assert [] + rest == rest;
    SpanSpacesOf([], rest);
  }

  lemma BarePointNoField(gap: string, w: string, rest: string)
    requires gap == " " && w == "1" && rest == ". 2 3"
    ensures MatchField(gap + (w + rest)) == Some((gap, Int(w), rest))
  {
    SpanSpacesOf(gap, w + rest);
    ScanNumeralBarePoint(w, rest);
  }

  /** `100 1. 2 3`: a point with no digits after it does not end a field. */
  lemma BarePointField(node: string, gap: string, w: string, rest: string)
    requires node == "100" && gap == " " && w == "1" && rest == ". 2 3"
    ensures MatchLine(node + (gap + (w + rest))).None?
  {
    NodeAt(node, gap + (w + rest));
    BarePointNoField(gap, w, rest);
    NoGap(rest);
  }

  lemma NoGap(rest: string)
    requires rest == ". 2 3"
    ensures MatchField(rest).None?
  {
    assert [] + rest == rest;
    SpanSpacesOf([], rest);
  }

  lemma LeadingPointNoField(gap: string, rest: string)
    requires gap == " " && rest == ".5 2 3"
    ensures MatchField(gap + rest).None?
  {
    SpanSpacesOf(gap, rest);
  }

  /** `100 .5 2 3`: a field with no digit before its point is not a numeral. */
  lemma LeadingPointField(node: string, gap: string, rest: string)
    requires node == "100" && gap == " " && rest == ".5 2 3"
    ensures MatchLine(node + (gap + rest)).None?
  {
    NodeAt(node, gap + rest);
    LeadingPointNoField(gap, rest);
  }

  lemma FirstOfTwoFields(gap: string, a: string, b: string)
    requires gap == " " && a == "1" && b == "2"
    ensures MatchField(gap + (a + (gap + b))) == Some((gap, Int(a), gap + b))
  {
    assert Text(Int(a)) == a;
    MatchFieldToken(gap, Int(a), gap + b);
  }

  lemma LastOfTwoFields(gap: string, b: string)
    requires gap == " " && b == "2"
    ensures MatchField(gap + b) == Some((gap, Int(b), []))
  {
    assert b == Text(Int(b)) + [];
    MatchFieldToken(gap, Int(b), []);
  }

  /** `100 1 2`: a line with only three numeric fields is not a record. */
  lemma ThreeFields(node: string, gap: string, a: string, b: string)
    requires node == "100" && gap == " " && a == "1" && b == "2"
    ensures MatchLine(node + (gap + (a + (gap + b)))).None?
  {
    NodeAt(node, gap + (a + (gap + b)));
    FirstOfTwoFields(gap, a, b);
    LastOfTwoFields(gap, b);
  }

  /** `100 1 2 3x` */
  function TrailingCut(): Cut {
    Cut("", "100", " ", Int("1"), " ", Int("2"), " ", Int("3"), "x")
  }

  /** The line this cut is taken from. */
  lemma TrailingLine()
    ensures Joined(TrailingCut()) == "100 1 2 3x"
  {
  }

  lemma TrailingFacts(c: Cut)
    requires c == TrailingCut()
    ensures Fits(c) && Delimits(c.rest) && NodeNumber(c) == 100
    ensures Value(c.fx) == Decimal(1, 0) && Value(c.t) == Decimal(2, 0)
  {
    assert "1" + [] == "1" && "2" + [] == "2";
    Value1();
    Value2();
    Value100();
  }

  /** Only a numeric prefix of the fourth field is needed: `100 1 2 3x` is a
      record whose fourth field is `3`. */
  lemma TrailingMatch(c: Cut)
    requires c == TrailingCut()
    ensures MatchLine(Joined(c)) == Some(c)
  {
    TrailingFacts(c);
    MatchLineExact(c);
  }

  /** `100 1 2 3x` contributes FX = 1 and T = 2. */
  lemma TrailingText(c: Cut)
    requires c == TrailingCut()
    ensures Contribution(Joined(c)) == Some((Decimal(1, 0), Decimal(2, 0)))
  {
    TrailingFacts(c);
    RecordLine(c);
  }

  /** Three lines in which `f` finds `a`, `b` and `c` give `[a, b, c]`. */
  lemma CollectedThree<P>(f: string -> Option<P>, lines: seq<string>, a: P, b: P, c: P)
    requires |lines| == 3 && f(lines[0]) == Some(a) && f(lines[1]) == Some(b) && f(lines[2]) == Some(c)
    ensures Collected(f, lines) == [a, b, c]
  {
    assert lines[..2][..1] == lines[..1] && lines[..2][1] == lines[1];
    assert lines[..1][..0] == [] && lines[..1][0] == lines[0];
    assert Collected(f, lines) == Collected(f, lines[..2]) + Emitted(f(lines[2]));
    assert Collected(f, lines[..2]) == Collected(f, lines[..1]) + Emitted(f(lines[1]));
    assert Collected(f, lines[..1]) == Emitted(f(lines[0]));
  }

  /** Four lines in which `f` finds nothing give nothing. */
  lemma CollectedNoneOfFour<P>(f: string -> Option<P>, lines: seq<string>)
    requires |lines| == 4 && f(lines[0]).None? && f(lines[1]).None? && f(lines[2]).None? && f(lines[3]).None?
    ensures Collected(f, lines) == []
  {
    CollectedEmpty(f, lines);
  }

  /** Records of nodes 100, 200 and 100 again: the pairs come out in line
      order, the i-th FX with the i-th T of the same line. */
  lemma RecordsInOrder(lines: seq<string>)
    requires |lines| == 3 && lines[0] == Joined(TypicalCut())
    requires lines[1] == Joined(SignedCut()) && lines[2] == Joined(TrailingCut())
    ensures Extracted(lines) ==
      [(Decimal(12345, -6), Decimal(27315, -2)), (Decimal(-5, 0), Decimal(10, 0)), (Decimal(1, 0), Decimal(2, 0))]
  {
    assert Contribution(lines[0]) == Some((Decimal(12345, -6), Decimal(27315, -2))) by { TypicalRecord(TypicalCut()); }
    assert Contribution(lines[1]) == Some((Decimal(-5, 0), Decimal(10, 0))) by { SignedRecord(SignedCut()); }
    assert Contribution(lines[2]) == Some((Decimal(1, 0), Decimal(2, 0))) by { TrailingText(TrailingCut()); }
    CollectedThree(Contribution, lines, (Decimal(12345, -6), Decimal(27315, -2)), (Decimal(-5, 0), Decimal(10, 0)),
                   (Decimal(1, 0), Decimal(2, 0)));
  }

  /** A file of a header, a blank line and the two sentinel records yields
      no pairs at all. */
  lemma NothingToReport(lines: seq<string>)
    requires |lines| == 4 && lines[0] == "NODE  FX  T  QI" && lines[1] == ""
    requires lines[2] == Joined(OnesCut("99998")) && lines[3] == Joined(OnesCut("99999"))
    ensures Extracted(lines) == []
  {
    assert Contribution(lines[0]).None? by { HeaderLine(lines[0]); }
    assert Contribution(lines[1]).None? by { BlankLine(lines[1]); }
    assert Contribution(lines[2]).None? by { SentinelRecords("99998"); }
    assert Contribution(lines[3]).None? by { SentinelRecords("99999"); }
    CollectedNoneOfFour(Contribution, lines);
  }
}
