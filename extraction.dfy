/** `read_fx_t`: one pass over the lines of an ESATAN output file that keeps
    the FX and T columns of every record line whose node is not a sentinel. */
module Extraction {
  import opened Numeral
  import opened LinePattern

  /** Node numbers of the special (sentinel) nodes, whose records are never reported. */
  const Sentinels: set<nat> := {99998, 99999}

  /** The node number `int()` reads from a matched line. */
  function NodeNumber(c: Cut): nat
    requires Fits(c)
  {
    DigitsValue(c.node)
  }

  /** What a match result adds to the two columns: the exact values of the FX
      and T fields of a record of an ordinary node, nothing for a sentinel
      record or a line that did not match. */
  function Accepted(m: Option<Cut>): (r: Option<(Decimal, Decimal)>)
    requires m.Some? ==> Fits(m.value)
    ensures r.Some? <==> m.Some? && NodeNumber(m.value) != 99998 && NodeNumber(m.value) != 99999
    ensures r.Some? ==> r.value.0 == Value(m.value.fx) && r.value.1 == Value(m.value.t)
  {
    match m
    case None => None
    case Some(c) => if NodeNumber(c) in Sentinels then None else Some((Value(c.fx), Value(c.t)))
  }

  /** What one line adds to the two columns. */
  function Contribution(line: string): (r: Option<(Decimal, Decimal)>)
    ensures r.Some? <==> MatchLine(line).Some? && NodeNumber(MatchLine(line).value) !in Sentinels
    ensures r.Some? ==> r == Some((Value(MatchLine(line).value.fx), Value(MatchLine(line).value.t)))
  {
    Accepted(MatchLine(line))
  }

  function Emitted<P>(o: Option<P>): seq<P> {
    if o.Some? then [o.value] else []
  }

  /** What a loop over `lines` that appends the value `f` finds in each line
      (when it finds one) leaves in its list. */
  function Collected<P>(f: string -> Option<P>, lines: seq<string>): (r: seq<P>)
    ensures |r| <= |lines|
  {
    if lines == [] then []
    else Collected(f, lines[..|lines| - 1]) + Emitted(f(lines[|lines| - 1]))
  }

  /** Positions of the lines in which `f` finds a value, in increasing order. */
  function FoundAt<P>(f: string -> Option<P>, lines: seq<string>): seq<nat> {
    if lines == [] then []
    else FoundAt(f, lines[..|lines| - 1]) + (if f(lines[|lines| - 1]).Some? then [|lines| - 1] else [])
  }

  lemma {:induction false} CollectedAppend<P>(f: string -> Option<P>, a: seq<string>, b: seq<string>)
    ensures Collected(f, a + b) == Collected(f, a) + Collected(f, b)
    decreases |b|
  {
    if b == [] {
      assert a + b == a;
    } else {
      var ab := a + b;
      var init := b[..|b| - 1];
      assert ab[..|ab| - 1] == a + init;
      assert ab[|ab| - 1] == b[|b| - 1];
      CollectedAppend(f, a, init);
      assert Collected(f, ab) == Collected(f, a + init) + Emitted(f(b[|b| - 1]));
      assert Collected(f, b) == Collected(f, init) + Emitted(f(b[|b| - 1]));
      AppendAssoc(Collected(f, a), Collected(f, init), Emitted(f(b[|b| - 1])));
    }
  }

  lemma AppendAssoc<T>(x: seq<T>, y: seq<T>, z: seq<T>)
    ensures (x + y) + z == x + (y + z)
  {
  }

  /** The k-th collected value is the one found in the k-th line where `f`
      finds one; those lines are taken in increasing order, and every line
      where `f` finds a value is among them. */
  lemma CollectedOrigin<P>(f: string -> Option<P>, lines: seq<string>)
    ensures var idx := FoundAt(f, lines);
      |idx| == |Collected(f, lines)| &&
      (forall k :: 0 <= k < |idx| ==> idx[k] < |lines| && f(lines[idx[k]]) == Some(Collected(f, lines)[k])) &&
      (forall k, l :: 0 <= k < l < |idx| ==> idx[k] < idx[l]) &&
      (forall j :: 0 <= j < |lines| && f(lines[j]).Some? ==> j in idx)
  {
    FoundAtOrdered(f, lines);
    CollectedAt(f, lines);
    FoundAtComplete(f, lines);
  }

  /** Positions are in range and strictly increasing. */
  lemma {:induction false} FoundAtOrdered<P>(f: string -> Option<P>, lines: seq<string>)
    ensures forall k :: 0 <= k < |FoundAt(f, lines)| ==> FoundAt(f, lines)[k] < |lines|
    ensures forall k, l :: 0 <= k < l < |FoundAt(f, lines)| ==> FoundAt(f, lines)[k] < FoundAt(f, lines)[l]
    decreases |lines|
  {
    if lines != [] {
      var init := lines[..|lines| - 1];
      FoundAtOrdered(f, init);
      var idx0 := FoundAt(f, init);
      var idx := FoundAt(f, lines);
      assert idx == idx0 + (if f(lines[|lines| - 1]).Some? then [|lines| - 1] else []);
      assert forall k :: 0 <= k < |idx0| ==> idx[k] == idx0[k] && idx0[k] < |init|;
    }
  }

  lemma {:induction false} CollectedAt<P>(f: string -> Option<P>, lines: seq<string>)
    ensures var idx := FoundAt(f, lines);
      |idx| == |Collected(f, lines)| &&
      forall k :: 0 <= k < |idx| ==> idx[k] < |lines| && f(lines[idx[k]]) == Some(Collected(f, lines)[k])
    decreases |lines|
  {
    FoundAtOrdered(f, lines);
    if lines != [] {
      var init := lines[..|lines| - 1];
      CollectedAt(f, init);
      var idx0 := FoundAt(f, init);
      assert forall k :: 0 <= k < |idx0| ==> lines[idx0[k]] == init[idx0[k]];
    }
  }

  lemma {:induction false} FoundAtComplete<P>(f: string -> Option<P>, lines: seq<string>)
    ensures forall j :: 0 <= j < |lines| && f(lines[j]).Some? ==> j in FoundAt(f, lines)
    decreases |lines|
  {
    if lines != [] {
      var init := lines[..|lines| - 1];
      FoundAtComplete(f, init);
      assert forall j :: 0 <= j < |init| ==> lines[j] == init[j];
    }
  }

  /** Nothing is collected exactly when `f` finds nothing in any line. */
  lemma {:induction false} CollectedEmpty<P>(f: string -> Option<P>, lines: seq<string>)
    ensures Collected(f, lines) == [] <==> forall j :: 0 <= j < |lines| ==> f(lines[j]).None?
    decreases |lines|
  {
    if lines != [] {
      var init := lines[..|lines| - 1];
      CollectedEmpty(f, init);
      assert forall j :: 0 <= j < |init| ==> init[j] == lines[j];
    }
  }

  /** The (FX, T) pairs of a file, one per contributing line, in line order. */
  function Extracted(lines: seq<string>): (r: seq<(Decimal, Decimal)>)
    ensures |r| <= |lines|
  {
    Collected(Contribution, lines)
  }

  /** The pairs of two files read one after the other are those of the first, then those of the second. */
  lemma ExtractedAppend(a: seq<string>, b: seq<string>)
    ensures Extracted(a + b) == Extracted(a) + Extracted(b)
  {
    CollectedAppend(Contribution, a, b);
  }

  /** One more line adds exactly its own contribution at the end. */
  lemma ExtractedSnoc(init: seq<string>, line: string)
    ensures Extracted(init + [line]) == Extracted(init) + Emitted(Contribution(line))
  {
    var lines := init + [line];
    assert lines[..|lines| - 1] == init;
  }

  /** Positions of the lines that contribute, in increasing order. */
  function ContributingLines(lines: seq<string>): seq<nat> {
    FoundAt(Contribution, lines)
  }

  /** Where each output pair comes from: the k-th pair is the contribution of
      the k-th contributing line, those lines are taken in file order, and
      every contributing line is among them. So the output has one pair per
      matching non-sentinel line, in line order, and nothing else. */
  lemma ExtractedOrigin(lines: seq<string>)
    ensures var idx := ContributingLines(lines);
      |idx| == |Extracted(lines)| &&
      (forall k :: 0 <= k < |idx| ==> idx[k] < |lines| && Contribution(lines[idx[k]]) == Some(Extracted(lines)[k])) &&
      (forall k, l :: 0 <= k < l < |idx| ==> idx[k] < idx[l]) &&
      (forall j :: 0 <= j < |lines| && Contribution(lines[j]).Some? ==> j in idx)
  {
    CollectedOrigin(Contribution, lines);
  }

  /** A line that contributes nothing can be taken out of any file without changing the result. */
  lemma SkippedLine(a: seq<string>, line: string, b: seq<string>)
    requires Contribution(line).None?
    ensures Extracted(a + [line] + b) == Extracted(a) + Extracted(b)
  {
    ExtractedAppend(a + [line], b);
    ExtractedSnoc(a, line);
  }

  /** A file yields no pairs exactly when none of its lines contributes: an
      empty file, or one made only of sentinel records and non-record lines. */
  lemma ExtractedEmpty(lines: seq<string>)
    ensures Extracted(lines) == [] <==> forall j :: 0 <= j < |lines| ==> Contribution(lines[j]).None?
  {
    CollectedEmpty(Contribution, lines);
  }

  /** On a line of the pattern's shape: a sentinel node contributes nothing,
      any other node contributes the exact values of the line's own FX and T
      fields (the fourth field is required but not reported). */
  lemma RecordLine(c: Cut)
    requires Fits(c)
    ensures NodeNumber(c) in Sentinels ==> Contribution(Joined(c)).None?
    ensures NodeNumber(c) !in Sentinels ==> Contribution(Joined(c)) == Some((Value(c.fx), Value(c.t)))
  {
    MatchLineComplete(c);
    var m := MatchLine(Joined(c));
    assert NodeNumber(m.value) == NodeNumber(c);
  }

  /** Text after a record does not change what the record contributes. */
  lemma ContributionTrailing(line: string, extra: string)
    requires MatchLine(line).Some?
    ensures Contribution(line + extra) == Contribution(line)
  {
    MatchLineTrailing(line, extra);
  }

  /** The line feed (or any other whitespace) that ends a line read from a
      file does not change what the line contributes. */
  lemma LineTerminator(line: string, ch: char)
    requires IsSpace(ch)
    ensures Contribution(line + [ch]) == Contribution(line)
  {
    MatchLineSpaceAfter(line, ch);
    if MatchLine(line).Some? {
      ContributionTrailing(line, [ch]);
    }
  }

  /** `xs` and `ys` are the first and second columns of `ps`. */
  predicate Columns(xs: seq<Decimal>, ys: seq<Decimal>, ps: seq<(Decimal, Decimal)>) {
    |xs| == |ys| == |ps| && forall k :: 0 <= k < |ps| ==> xs[k] == ps[k].0 && ys[k] == ps[k].1
  }

  /** One more line appends its value (if `f` finds one) to both columns. */
  lemma CollectedStep(f: string -> Option<(Decimal, Decimal)>, done: seq<string>, line: string,
                      xs: seq<Decimal>, ys: seq<Decimal>)
    requires Columns(xs, ys, Collected(f, done))
    ensures f(line).None? ==> Columns(xs, ys, Collected(f, done + [line]))
    ensures f(line).Some? ==>
      Columns(xs + [f(line).value.0], ys + [f(line).value.1], Collected(f, done + [line]))
  {
    var lines := done + [line];
    assert lines[..|lines| - 1] == done;
  }

  /** One more line, in the terms the loop of `read_fx_t` tests it: a line
      that does not match, or a sentinel record, leaves the columns as they
      are; any other record appends its FX and T values. */
  lemma ExtractedStep(done: seq<string>, line: string, xs: seq<Decimal>, ys: seq<Decimal>)
    requires Columns(xs, ys, Extracted(done))
    ensures var m := MatchLine(line);
      (m.None? || NodeNumber(m.value) in Sentinels ==> Columns(xs, ys, Extracted(done + [line]))) &&
      (m.Some? && NodeNumber(m.value) !in Sentinels ==>
         Columns(xs + [Value(m.value.fx)], ys + [Value(m.value.t)], Extracted(done + [line])))
  {
    CollectedStep(Contribution, done, line, xs, ys);
  }

  /** The loop of `read_fx_t` over the lines of a file: every matching line
      whose node is not a sentinel appends its FX value to one list and its T
      value to the other. The two lists come out as the columns of
      `Extracted(lines)`, so they have the same length and their i-th entries
      come from the same line. */
  method ReadFxT(lines: seq<string>) returns (fxVals: seq<Decimal>, tVals: seq<Decimal>)
    ensures Columns(fxVals, tVals, Extracted(lines))
  {
    fxVals, tVals := [], [];
    for i := 0 to |lines|
      invariant Columns(fxVals, tVals, Extracted(lines[..i]))
    {
      var line := lines[i];
      ghost var done := lines[..i];
      assert lines[..i + 1] == done + [line];
      ExtractedStep(done, line, fxVals, tVals);
      var m := MatchLine(line);
      if m.Some? {
        var node := DigitsValue(m.value.node);
        if node in Sentinels {
          continue;
        }
        var fx := Value(m.value.fx);
        var t := Value(m.value.t);
        fxVals := fxVals + [fx];
        tVals := tVals + [t];
      }
    }
    assert lines[..|lines|] == lines;
  }
}
