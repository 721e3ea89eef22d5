/** The L-system of Lab2/lsysem.py: the axiom "F" is rewritten three times with
    the production F -> F-F+F+FF-F-F+F (every other symbol is copied), and the
    resulting string is read symbol by symbol as turtle commands. */
module LSystem {

  const Axiom: string := "F"
  const Production: string := "F-F+F+FF-F-F+F"
  const Iterations: nat := 3

  /** The production table `logic`: only 'F' has a rule. */
  function Rule(ch: char): (r: string)
    ensures ch == 'F' ==> r == Production
    ensures ch != 'F' ==> r == [ch]
  {
    if ch == 'F' then Production else [ch]
  }

  /** One parallel rewriting step, as a reference definition. */
  function Step(s: string): string
  {
    if s == [] then [] else Step(s[..|s| - 1]) + Rule(s[|s| - 1])
  }

  /** The string after k rewriting steps from s. */
  function Iterate(s: string, k: nat): string
    decreases k
  {
    if k == 0 then s else Iterate(Step(s), k - 1)
  }

  /** Number of occurrences of ch in s. */
  function CountOf(s: string, ch: char): nat
  {
    multiset(s)[ch]
  }

  /** The string uses only the symbols 'F', '+' and '-'. */
  predicate OverAlphabet(s: string)
  {
    forall i :: 0 <= i < |s| ==> s[i] in {'F', '+', '-'}
  }

  /** Lines 8-13: `iterations` passes; each pass builds `tempAx` from the
      current axiom and then resets it to the empty string. */
  method Generate(axiom: string, iterations: nat) returns (result: string)
    ensures result == Iterate(axiom, iterations)
  {
    result := axiom;
    var tempAx: string := "";
    for i := 0 to iterations
      invariant tempAx == ""
      invariant Iterate(result, iterations - i) == Iterate(axiom, iterations)
    {
      for j := 0 to |result|
        invariant tempAx == Step(result[..j])
      {
        assert result[..j + 1][..j] == result[..j];
        tempAx := tempAx + Rule(result[j]);
      }
      assert result[..|result|] == result;
      result, tempAx := tempAx, "";
    }
  }

  lemma AlphabetSplit(s: string, t: string)
    ensures OverAlphabet(s + t) <==> OverAlphabet(s) && OverAlphabet(t)
  {
    if OverAlphabet(s + t) {
      forall i | 0 <= i < |s| ensures s[i] in {'F', '+', '-'} { assert s[i] == (s + t)[i]; }
      forall i | 0 <= i < |t| ensures t[i] in {'F', '+', '-'} { assert t[i] == (s + t)[|s| + i]; }
    }
  }

  lemma ProductionCount()
    ensures CountOf(Production, 'F') == 8
  {
  }

  lemma ProductionAlphabet()
    ensures |Production| == 14 && OverAlphabet(Production)
  {
  }

  /** The production has 14 symbols, 8 of them 'F', all over F, + and -. */
  lemma ProductionFacts()
    ensures |Production| == 14 && CountOf(Production, 'F') == 8 && OverAlphabet(Production)
  {
    ProductionCount();
    ProductionAlphabet();
  }

  lemma RuleFacts(ch: char)
    ensures CountOf(Rule(ch), 'F') == if ch == 'F' then 8 else 0
    ensures |Rule(ch)| == if ch == 'F' then 14 else 1
    ensures ch in {'F', '+', '-'} ==> OverAlphabet(Rule(ch))
  {
    if ch == 'F' {
      ProductionFacts();
    } else {
      assert multiset([ch])['F'] == 0;
    }
  }

  /** A pass over s + [ch] is the pass over s followed by the rule of ch. */
  lemma StepSnoc(s: string, ch: char)
    ensures Step(s + [ch]) == Step(s) + Rule(ch)
  {
    assert (s + [ch])[..|s|] == s;
  }

  lemma {:induction false} StepCountF(s: string)
    ensures CountOf(Step(s), 'F') == 8 * CountOf(s, 'F')
  {
    if s != [] {
      var s', ch := s[..|s| - 1], s[|s| - 1];
      assert s == s' + [ch];
      StepCountF(s');
      StepSnoc(s', ch);
      RuleFacts(ch);
      assert multiset(s) == multiset(s') + multiset{ch};
      assert multiset(Step(s)) == multiset(Step(s')) + multiset(Rule(ch));
    }
  }

  lemma {:induction false} StepLength(s: string)
    ensures |Step(s)| == |s| + 13 * CountOf(s, 'F')
  {
    if s != [] {
      var s', ch := s[..|s| - 1], s[|s| - 1];
      assert s == s' + [ch];
      StepLength(s');
      StepSnoc(s', ch);
      RuleFacts(ch);
      assert multiset(s) == multiset(s') + multiset{ch};
    }
  }

  lemma {:induction false} StepAlphabet(s: string)
    requires OverAlphabet(s)
    ensures OverAlphabet(Step(s))
  {
    if s != [] {
      var s', ch := s[..|s| - 1], s[|s| - 1];
      assert s == s' + [ch];
      AlphabetSplit(s', [ch]);
      StepAlphabet(s');
      StepSnoc(s', ch);
      RuleFacts(ch);
      AlphabetSplit(Step(s'), Rule(ch));
    }
  }

  /** One pass maps each 'F' to the 14-symbol production, keeps everything
      else, multiplies the number of 'F's by 8 and adds 13 symbols per 'F'. */
  lemma StepCounts(s: string)
    ensures CountOf(Step(s), 'F') == 8 * CountOf(s, 'F')
    ensures |Step(s)| == |s| + 13 * CountOf(s, 'F')
    ensures OverAlphabet(s) ==> OverAlphabet(Step(s))
  {
    StepCountF(s);
    StepLength(s);
    if OverAlphabet(s) {
      StepAlphabet(s);
    }
  }

  /** Each iteration rewrites exactly the string the previous one produced:
      k + 1 passes are k passes followed by one more. */
  lemma {:induction false} IterateAppend(s: string, k: nat)
    ensures Iterate(s, k + 1) == Step(Iterate(s, k))
    decreases k
  {
    if k > 0 {
      IterateAppend(Step(s), k - 1);
    }
  }

  /** k passes multiply the number of 'F's by 8 each and keep the string
      over F, + and -. */
  lemma {:induction false} IterateCounts(s: string, k: nat, f: nat)
    requires CountOf(s, 'F') == f
    ensures CountOf(Iterate(s, k + 1), 'F') == 8 * CountOf(Iterate(s, k), 'F')
    ensures |Iterate(s, k + 1)| == |Iterate(s, k)| + 13 * CountOf(Iterate(s, k), 'F')
    ensures OverAlphabet(s) ==> OverAlphabet(Iterate(s, k))
    decreases k
  {
    IterateAppend(s, k);
    StepCounts(Iterate(s, k));
    if k > 0 {
      StepCounts(s);
      IterateCounts(Step(s), k - 1, 8 * f);
    }
  }

  /** Lines 8-12: from "F" the three passes give strings of length 14, 118
      and 950; the last holds 512 'F's and only the symbols F, + and -. */
  lemma GeneratedSizes(start: string)
    requires start == Axiom
    ensures |Iterate(start, 1)| == 14 && CountOf(Iterate(start, 1), 'F') == 8
    ensures |Iterate(start, 2)| == 118 && CountOf(Iterate(start, 2), 'F') == 64
    ensures |Iterate(start, 3)| == 950 && CountOf(Iterate(start, 3), 'F') == 512
    ensures OverAlphabet(Iterate(start, 3))
  {
    assert CountOf(start, 'F') == 1 && |start| == 1;
    assert OverAlphabet(start);
    assert Iterate(start, 0) == start;
    IterateCounts(start, 0, 1);
    IterateCounts(start, 1, 1);
    IterateCounts(start, 2, 1);
    IterateCounts(start, 3, 1);
  }

  /** A turtle command: the angle or distance is part of the command. */
  datatype Command = Left(degrees: nat) | Right(degrees: nat) | Forward(distance: nat)

  /** Lines 16-21: '+' turns left 90, '-' turns right 90, any other symbol
      moves forward 5. */
  function CommandFor(ch: char): (c: Command)
    ensures c.Left? <==> ch == '+'
    ensures c.Right? <==> ch == '-'
    ensures c.Left? ==> c.degrees == 90
    ensures c.Right? ==> c.degrees == 90
    ensures c.Forward? ==> c.distance == 5
  {
    if ch == '+' then Left(90) else if ch == '-' then Right(90) else Forward(5)
  }

  /** Lines 15-21: the drawing loop, with the turtle calls collected as a
      command list. */
  method Interpret(axiom: string) returns (cmds: seq<Command>)
    ensures |cmds| == |axiom|
    ensures forall i :: 0 <= i < |axiom| ==> cmds[i] == CommandFor(axiom[i])
  {
    cmds := [];
    for k := 0 to |axiom|
      invariant |cmds| == k
      invariant forall i :: 0 <= i < k ==> cmds[i] == CommandFor(axiom[i])
    {
      cmds := cmds + [CommandFor(axiom[k])];
    }
  }

  /** The number of forward moves is the number of symbols other than + and -. */
  function ForwardCount(cmds: seq<Command>): nat
  {
    if cmds == [] then 0 else ForwardCount(cmds[..|cmds| - 1]) + (if cmds[|cmds| - 1].Forward? then 1 else 0)
  }

  /** For a string over F, + and -, the turtle moves forward once per 'F'. */
  lemma {:induction false} ForwardsAreFs(s: string, cmds: seq<Command>)
    requires OverAlphabet(s)
    requires |cmds| == |s|
    requires forall i :: 0 <= i < |s| ==> cmds[i] == CommandFor(s[i])
    ensures ForwardCount(cmds) == CountOf(s, 'F')
  {
    if s != [] {
      var n := |s| - 1;
      assert s[n] in {'F', '+', '-'};
      assert s == s[..n] + [s[n]];
      assert multiset(s) == multiset(s[..n]) + multiset{s[n]};
      AlphabetSplit(s[..n], [s[n]]);
      ForwardsAreFs(s[..n], cmds[..n]);
    }
  }

  /** The whole script: three passes from "F", then one command per symbol,
      512 of them forward moves. */
  method Run() returns (curve: string, cmds: seq<Command>)
    ensures curve == Iterate(Axiom, Iterations) && |curve| == 950
    ensures |cmds| == |curve| && forall i :: 0 <= i < |curve| ==> cmds[i] == CommandFor(curve[i])
    ensures |cmds| == 950 && ForwardCount(cmds) == 512
  {
    curve := Generate(Axiom, Iterations);
    cmds := Interpret(curve);
    GeneratedSizes(Axiom);
    ForwardsAreFs(curve, cmds);
  }
}
