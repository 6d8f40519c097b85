/** The scanner test vectors of `FoldTreeFromSS.cxxtest.hh`. Each test string is
    given by its runs of equal characters: `Expand(More(Run(' ', 3), More(Run('E', 5), Done)))`
    is `"   EEEEE"`. */
module ScannerTestVectors {
  import opened Spans
  import opened Scanner

  /** `count` copies of `letter`. */
  datatype Run = Run(letter: char, count: nat)

  datatype Runs = Done | More(head: Run, tail: Runs)

  function Expand(runs: Runs): string
  {
    match runs
    case Done => []
    case More(r, rest) => seq(r.count, _ => r.letter) + Expand(rest)
  }

  /** The first run of `runs`, spelled out as a string literal. */
  lemma ExpandHead(runs: Runs, head: string)
    requires runs.More? && |head| == runs.head.count
    requires forall i | 0 <= i < |head| :: head[i] == runs.head.letter
    ensures Expand(runs) == head + Expand(runs.tail)
  {
    assert seq(runs.head.count, _ => runs.head.letter) == head;
  }

  /** Regrouping a concatenation of three strings. */
  lemma AppendAssoc(a: string, b: string, c: string)
    ensures a + (b + c) == (a + b) + c
  {
  }

  /** Once a character has been scanned, more copies of it change nothing. */
  lemma {:induction false} FeedSame(st: ScanState, c: char, n: nat, i: nat)
    requires st == Step(st, i, c)
    ensures Feed(st, seq(n, _ => c), i) == st
  {
    if n > 0 {
      var t := seq(n, _ => c);
      assert t[0] == c && t[1..] == seq(n - 1, _ => c);
      assert Step(st, i, c) == Step(st, i + 1, c);
      FeedSame(st, c, n - 1, i + 1);
    }
  }

  /** Scanning a run of `n >= 1` copies of one character is one step of the loop. */
  lemma FeedRun(st: ScanState, c: char, n: nat, i: nat)
    requires n >= 1
    ensures Feed(st, seq(n, _ => c), i) == Step(st, i, c)
  {
    var t := seq(n, _ => c);
    assert t[0] == c && t[1..] == seq(n - 1, _ => c);
    FeedSame(Step(st, i, c), c, n - 1, i + 1);
  }

  /** Scanning the first run of `runs`, then the rest. */
  lemma FeedRuns(st: ScanState, runs: Runs, i: nat, next: ScanState)
    requires runs.More? && runs.head.count >= 1 && next == Step(st, i, runs.head.letter)
    ensures Feed(st, Expand(runs), i) == Feed(next, Expand(runs.tail), i + runs.head.count)
    ensures |Expand(runs)| == runs.head.count + |Expand(runs.tail)|
  {
    var piece := seq(runs.head.count, _ => runs.head.letter);
    assert Expand(runs) == piece + Expand(runs.tail);
    FeedAppend(st, piece, Expand(runs.tail), i);
    FeedRun(st, runs.head.letter, runs.head.count, i);
  }

  /** The test string "   EEEEE   HHHHHHHH  EEEEE   IGNOR EEEEEE   HHHHHHHHHHH  EEEEE  HHHH   " (71 residues), as runs. */
  const Case1From18: Runs :=
    More(Run(' ', 2), More(Run('H', 4), More(Run(' ', 3), Done)))
  const Case1From12: Runs :=
    More(Run(' ', 1), More(Run('E', 6), More(Run(' ', 3), More(Run('H', 11), More(Run(' ', 2), More(Run('E', 5), Case1From18))))))
  const Case1From6: Runs :=
    More(Run(' ', 3), More(Run('I', 1), More(Run('G', 1), More(Run('N', 1), More(Run('O', 1), More(Run('R', 1), Case1From12))))))
  const Case1From3: Runs :=
    More(Run('H', 8), More(Run(' ', 2), More(Run('E', 5), Case1From6)))
  const Case1Runs: Runs :=
    More(Run(' ', 3), More(Run('E', 5), More(Run(' ', 3), Case1From3)))

  lemma Case1From18Text()
    ensures Expand(Case1From18) == "  HHHH   " + Expand(Done)
  {
    var r0 := Case1From18;
    var r1 := r0.tail;
    var r2 := r1.tail;
    var r3 := r2.tail;
    ExpandHead(r0, "  ");
    ExpandHead(r1, "HHHH");
    ExpandHead(r2, "   ");
    assert Expand(r0) == "  " + ("HHHH" + ("   " + (Expand(r3))));
  }

  lemma Case1From12Text()
    ensures Expand(Case1From12) == " EEEEEE   HHHHHHHHHHH  EEEEE" + Expand(Case1From18)
  {
    var r0 := Case1From12;
    var r1 := r0.tail;
    var r2 := r1.tail;
    var r3 := r2.tail;
    var r4 := r3.tail;
    var r5 := r4.tail;
    var r6 := r5.tail;
    ExpandHead(r0, " ");
    ExpandHead(r1, "EEEEEE");
    ExpandHead(r2, "   ");
    ExpandHead(r3, "HHHHHHHHHHH");
    ExpandHead(r4, "  ");
    ExpandHead(r5, "EEEEE");
    assert Expand(r0) == " " + ("EEEEEE" + ("   " + ("HHHHHHHHHHH" + ("  " + ("EEEEE" + (Expand(r6)))))));
  }

  lemma Case1From6Text()
    ensures Expand(Case1From6) == "   IGNOR" + Expand(Case1From12)
  {
    var r0 := Case1From6;
    var r1 := r0.tail;
    var r2 := r1.tail;
    var r3 := r2.tail;
    var r4 := r3.tail;
    var r5 := r4.tail;
    var r6 := r5.tail;
    ExpandHead(r0, "   ");
    ExpandHead(r1, "I");
    ExpandHead(r2, "G");
    ExpandHead(r3, "N");
    ExpandHead(r4, "O");
    ExpandHead(r5, "R");
    assert Expand(r0) == "   " + ("I" + ("G" + ("N" + ("O" + ("R" + (Expand(r6)))))));
  }

  lemma Case1From3Text()
    ensures Expand(Case1From3) == "HHHHHHHH  EEEEE" + Expand(Case1From6)
  {
    var r0 := Case1From3;
    var r1 := r0.tail;
    var r2 := r1.tail;
    var r3 := r2.tail;
    ExpandHead(r0, "HHHHHHHH");
    ExpandHead(r1, "  ");
    ExpandHead(r2, "EEEEE");
    assert Expand(r0) == "HHHHHHHH" + ("  " + ("EEEEE" + (Expand(r3))));
  }

  lemma Case1RunsText()
    ensures Expand(Case1Runs) == "   EEEEE   " + Expand(Case1From3)
  {
    var r0 := Case1Runs;
    var r1 := r0.tail;
    var r2 := r1.tail;
    var r3 := r2.tail;
    ExpandHead(r0, "   ");
    ExpandHead(r1, "EEEEE");
    ExpandHead(r2, "   ");
    assert Expand(r0) == "   " + ("EEEEE" + ("   " + (Expand(r3))));
  }

  lemma Case1Join1()
    ensures "   EEEEE   " + "HHHHHHHH  EEEEE" == "   EEEEE   HHHHHHHH  EEEEE"
  {
  }

  lemma Case1Join2()
    ensures "   EEEEE   HHHHHHHH  EEEEE" + "   IGNOR" == "   EEEEE   HHHHHHHH  EEEEE   IGNOR"
  {
  }

  lemma Case1Join3()
    ensures "   EEEEE   HHHHHHHH  EEEEE   IGNOR" + " EEEEEE   HHHHHHHHHHH  EEEEE" == "   EEEEE   HHHHHHHH  EEEEE   IGNOR EEEEEE   HHHHHHHHHHH  EEEEE"
  {
  }

  lemma Case1Join4()
    ensures "   EEEEE   HHHHHHHH  EEEEE   IGNOR EEEEEE   HHHHHHHHHHH  EEEEE" + "  HHHH   " == "   EEEEE   HHHHHHHH  EEEEE   IGNOR EEEEEE   HHHHHHHHHHH  EEEEE  HHHH   "
  {
  }

  /** The run encoding spells the test string of `test_case_1`. */
  lemma Case1Text()
    ensures Expand(Case1Runs) == "   EEEEE   HHHHHHHH  EEEEE   IGNOR EEEEEE   HHHHHHHHHHH  EEEEE  HHHH   "
  {
    Case1From18Text();
    Case1From12Text();
    Case1From6Text();
    Case1From3Text();
    Case1RunsText();
    assert Expand(Done) == [];
    assert "  HHHH   " + [] == "  HHHH   ";
    AppendAssoc("   EEEEE   ", "HHHHHHHH  EEEEE", "   IGNOR" + (" EEEEEE   HHHHHHHHHHH  EEEEE" + ("  HHHH   ")));
    Case1Join1();
    AppendAssoc("   EEEEE   HHHHHHHH  EEEEE", "   IGNOR", " EEEEEE   HHHHHHHHHHH  EEEEE" + ("  HHHH   "));
    Case1Join2();
    AppendAssoc("   EEEEE   HHHHHHHH  EEEEE   IGNOR", " EEEEEE   HHHHHHHHHHH  EEEEE", "  HHHH   ");
    Case1Join3();
    Case1Join4();
  }

  lemma Case1Part0()
    ensures Feed(ScanState([], None), Expand(Case1Runs), 0) == Feed(ScanState([Span(4, 8), Span(12, 19)], Some(Open(21, 'E'))), Expand(Case1From6), 26)
    ensures |Expand(Case1Runs)| == 26 + |Expand(Case1From6)|
  {
    var r0 := Case1Runs;
    var r1 := r0.tail;
    var r2 := r1.tail;
    var r3 := r2.tail;
    var r4 := r3.tail;
    var r5 := r4.tail;
    var r6 := r5.tail;
    FeedRuns(ScanState([], None), r0, 0, ScanState([], None));
    FeedRuns(ScanState([], None), r1, 3, ScanState([], Some(Open(3, 'E'))));
    FeedRuns(ScanState([], Some(Open(3, 'E'))), r2, 8, ScanState([Span(4, 8)], None));
    FeedRuns(ScanState([Span(4, 8)], None), r3, 11, ScanState([Span(4, 8)], Some(Open(11, 'H'))));
    FeedRuns(ScanState([Span(4, 8)], Some(Open(11, 'H'))), r4, 19, ScanState([Span(4, 8), Span(12, 19)], None));
    FeedRuns(ScanState([Span(4, 8), Span(12, 19)], None), r5, 21, ScanState([Span(4, 8), Span(12, 19)], Some(Open(21, 'E'))));
    assert r6 == Case1From6;
  }

  lemma Case1Part1()
    ensures Feed(ScanState([Span(4, 8), Span(12, 19)], Some(Open(21, 'E'))), Expand(Case1From6), 26) == Feed(ScanState([Span(4, 8), Span(12, 19), Span(22, 26)], None), Expand(Case1From12), 34)
    ensures |Expand(Case1From6)| == 8 + |Expand(Case1From12)|
  {
    var r6 := Case1From6;
    var r7 := r6.tail;
    var r8 := r7.tail;
    var r9 := r8.tail;
    var r10 := r9.tail;
    var r11 := r10.tail;
    var r12 := r11.tail;
    FeedRuns(ScanState([Span(4, 8), Span(12, 19)], Some(Open(21, 'E'))), r6, 26, ScanState([Span(4, 8), Span(12, 19), Span(22, 26)], None));
    FeedRuns(ScanState([Span(4, 8), Span(12, 19), Span(22, 26)], None), r7, 29, ScanState([Span(4, 8), Span(12, 19), Span(22, 26)], None));
    FeedRuns(ScanState([Span(4, 8), Span(12, 19), Span(22, 26)], None), r8, 30, ScanState([Span(4, 8), Span(12, 19), Span(22, 26)], None));
    FeedRuns(ScanState([Span(4, 8), Span(12, 19), Span(22, 26)], None), r9, 31, ScanState([Span(4, 8), Span(12, 19), Span(22, 26)], None));
    FeedRuns(ScanState([Span(4, 8), Span(12, 19), Span(22, 26)], None), r10, 32, ScanState([Span(4, 8), Span(12, 19), Span(22, 26)], None));
    FeedRuns(ScanState([Span(4, 8), Span(12, 19), Span(22, 26)], None), r11, 33, ScanState([Span(4, 8), Span(12, 19), Span(22, 26)], None));
    assert r12 == Case1From12;
  }

  lemma Case1Part2()
    ensures Feed(ScanState([Span(4, 8), Span(12, 19), Span(22, 26)], None), Expand(Case1From12), 34) == Feed(ScanState([Span(4, 8), Span(12, 19), Span(22, 26), Span(36, 41), Span(45, 55)], Some(Open(57, 'E'))), Expand(Case1From18), 62)
    ensures |Expand(Case1From12)| == 28 + |Expand(Case1From18)|
  {
    var r12 := Case1From12;
    var r13 := r12.tail;
    var r14 := r13.tail;
    var r15 := r14.tail;
    var r16 := r15.tail;
    var r17 := r16.tail;
    var r18 := r17.tail;
    FeedRuns(ScanState([Span(4, 8), Span(12, 19), Span(22, 26)], None), r12, 34, ScanState([Span(4, 8), Span(12, 19), Span(22, 26)], None));
    FeedRuns(ScanState([Span(4, 8), Span(12, 19), Span(22, 26)], None), r13, 35, ScanState([Span(4, 8), Span(12, 19), Span(22, 26)], Some(Open(35, 'E'))));
    FeedRuns(ScanState([Span(4, 8), Span(12, 19), Span(22, 26)], Some(Open(35, 'E'))), r14, 41, ScanState([Span(4, 8), Span(12, 19), Span(22, 26), Span(36, 41)], None));
    FeedRuns(ScanState([Span(4, 8), Span(12, 19), Span(22, 26), Span(36, 41)], None), r15, 44, ScanState([Span(4, 8), Span(12, 19), Span(22, 26), Span(36, 41)], Some(Open(44, 'H'))));
    FeedRuns(ScanState([Span(4, 8), Span(12, 19), Span(22, 26), Span(36, 41)], Some(Open(44, 'H'))), r16, 55, ScanState([Span(4, 8), Span(12, 19), Span(22, 26), Span(36, 41), Span(45, 55)], None));
    FeedRuns(ScanState([Span(4, 8), Span(12, 19), Span(22, 26), Span(36, 41), Span(45, 55)], None), r17, 57, ScanState([Span(4, 8), Span(12, 19), Span(22, 26), Span(36, 41), Span(45, 55)], Some(Open(57, 'E'))));
    assert r18 == Case1From18;
  }

  lemma Case1Part3()
    ensures Feed(ScanState([Span(4, 8), Span(12, 19), Span(22, 26), Span(36, 41), Span(45, 55)], Some(Open(57, 'E'))), Expand(Case1From18), 62) == Feed(ScanState([Span(4, 8), Span(12, 19), Span(22, 26), Span(36, 41), Span(45, 55), Span(58, 62), Span(65, 68)], None), Expand(Done), 71)
    ensures |Expand(Case1From18)| == 9 + |Expand(Done)|
  {
    var r18 := Case1From18;
    var r19 := r18.tail;
    var r20 := r19.tail;
    var r21 := r20.tail;
    FeedRuns(ScanState([Span(4, 8), Span(12, 19), Span(22, 26), Span(36, 41), Span(45, 55)], Some(Open(57, 'E'))), r18, 62, ScanState([Span(4, 8), Span(12, 19), Span(22, 26), Span(36, 41), Span(45, 55), Span(58, 62)], None));
    FeedRuns(ScanState([Span(4, 8), Span(12, 19), Span(22, 26), Span(36, 41), Span(45, 55), Span(58, 62)], None), r19, 64, ScanState([Span(4, 8), Span(12, 19), Span(22, 26), Span(36, 41), Span(45, 55), Span(58, 62)], Some(Open(64, 'H'))));
    FeedRuns(ScanState([Span(4, 8), Span(12, 19), Span(22, 26), Span(36, 41), Span(45, 55), Span(58, 62)], Some(Open(64, 'H'))), r20, 68, ScanState([Span(4, 8), Span(12, 19), Span(22, 26), Span(36, 41), Span(45, 55), Span(58, 62), Span(65, 68)], None));
    assert r21 == Done;
  }

  /** `test_case_1`: the string "   EEEEE   HHHHHHHH  EEEEE   IGNOR EEEEEE   HHHHHHHHHHH  EEEEE  HHHH   " gives the spans (4,8), (12,19), (22,26), (36,41), (45,55), (58,62), (65,68). */
  lemma ScanTestCase1()
    ensures Scan("   EEEEE   HHHHHHHH  EEEEE   IGNOR EEEEEE   HHHHHHHHHHH  EEEEE  HHHH   ") == [Span(4, 8), Span(12, 19), Span(22, 26), Span(36, 41), Span(45, 55), Span(58, 62), Span(65, 68)]
  {
    Case1Text();
    Case1Part0();
    Case1Part1();
    Case1Part2();
    Case1Part3();
  }

  /** The test string "HHHHHHH   HHHHHHHHHHHH      HHHHHHHHHHHHEEEEEEEEEEHHHHHHH EEEEHHH " (66 residues), as runs. */
  const Case2From6: Runs :=
    More(Run('H', 7), More(Run(' ', 1), More(Run('E', 4), More(Run('H', 3), More(Run(' ', 1), Done)))))
  const Case2From3: Runs :=
    More(Run(' ', 6), More(Run('H', 12), More(Run('E', 10), Case2From6)))
  const Case2Runs: Runs :=
    More(Run('H', 7), More(Run(' ', 3), More(Run('H', 12), Case2From3)))

  lemma Case2From6Text()
    ensures Expand(Case2From6) == "HHHHHHH EEEEHHH " + Expand(Done)
  {
    var r0 := Case2From6;
    var r1 := r0.tail;
    var r2 := r1.tail;
    var r3 := r2.tail;
    var r4 := r3.tail;
    var r5 := r4.tail;
    ExpandHead(r0, "HHHHHHH");
    ExpandHead(r1, " ");
    ExpandHead(r2, "EEEE");
    ExpandHead(r3, "HHH");
    ExpandHead(r4, " ");
    assert Expand(r0) == "HHHHHHH" + (" " + ("EEEE" + ("HHH" + (" " + (Expand(r5))))));
  }

  lemma Case2From3Text()
    ensures Expand(Case2From3) == "      HHHHHHHHHHHHEEEEEEEEEE" + Expand(Case2From6)
  {
    var r0 := Case2From3;
    var r1 := r0.tail;
    var r2 := r1.tail;
    var r3 := r2.tail;
    ExpandHead(r0, "      ");
    ExpandHead(r1, "HHHHHHHHHHHH");
    ExpandHead(r2, "EEEEEEEEEE");
    assert Expand(r0) == "      " + ("HHHHHHHHHHHH" + ("EEEEEEEEEE" + (Expand(r3))));
  }

  lemma Case2RunsText()
    ensures Expand(Case2Runs) == "HHHHHHH   HHHHHHHHHHHH" + Expand(Case2From3)
  {
    var r0 := Case2Runs;
    var r1 := r0.tail;
    var r2 := r1.tail;
    var r3 := r2.tail;
    ExpandHead(r0, "HHHHHHH");
    ExpandHead(r1, "   ");
    ExpandHead(r2, "HHHHHHHHHHHH");
    assert Expand(r0) == "HHHHHHH" + ("   " + ("HHHHHHHHHHHH" + (Expand(r3))));
  }

  lemma Case2Join1()
    ensures "HHHHHHH   HHHHHHHHHHHH" + "      HHHHHHHHHHHHEEEEEEEEEE" == "HHHHHHH   HHHHHHHHHHHH      HHHHHHHHHHHHEEEEEEEEEE"
  {
  }

  lemma Case2Join2()
    ensures "HHHHHHH   HHHHHHHHHHHH      HHHHHHHHHHHHEEEEEEEEEE" + "HHHHHHH EEEEHHH " == "HHHHHHH   HHHHHHHHHHHH      HHHHHHHHHHHHEEEEEEEEEEHHHHHHH EEEEHHH "
  {
  }

  /** The run encoding spells the test string of `test_case_2`. */
  lemma Case2Text()
    ensures Expand(Case2Runs) == "HHHHHHH   HHHHHHHHHHHH      HHHHHHHHHHHHEEEEEEEEEEHHHHHHH EEEEHHH "
  {
    Case2From6Text();
    Case2From3Text();
    Case2RunsText();
    assert Expand(Done) == [];
    assert "HHHHHHH EEEEHHH " + [] == "HHHHHHH EEEEHHH ";
    AppendAssoc("HHHHHHH   HHHHHHHHHHHH", "      HHHHHHHHHHHHEEEEEEEEEE", "HHHHHHH EEEEHHH ");
    Case2Join1();
    Case2Join2();
  }

  lemma Case2Part0()
    ensures Feed(ScanState([], None), Expand(Case2Runs), 0) == Feed(ScanState([Span(1, 7), Span(11, 22), Span(29, 40)], Some(Open(40, 'E'))), Expand(Case2From6), 50)
    ensures |Expand(Case2Runs)| == 50 + |Expand(Case2From6)|
  {
    var r0 := Case2Runs;
    var r1 := r0.tail;
    var r2 := r1.tail;
    var r3 := r2.tail;
    var r4 := r3.tail;
    var r5 := r4.tail;
    var r6 := r5.tail;
    FeedRuns(ScanState([], None), r0, 0, ScanState([], Some(Open(0, 'H'))));
    FeedRuns(ScanState([], Some(Open(0, 'H'))), r1, 7, ScanState([Span(1, 7)], None));
    FeedRuns(ScanState([Span(1, 7)], None), r2, 10, ScanState([Span(1, 7)], Some(Open(10, 'H'))));
    FeedRuns(ScanState([Span(1, 7)], Some(Open(10, 'H'))), r3, 22, ScanState([Span(1, 7), Span(11, 22)], None));
    FeedRuns(ScanState([Span(1, 7), Span(11, 22)], None), r4, 28, ScanState([Span(1, 7), Span(11, 22)], Some(Open(28, 'H'))));
    FeedRuns(ScanState([Span(1, 7), Span(11, 22)], Some(Open(28, 'H'))), r5, 40, ScanState([Span(1, 7), Span(11, 22), Span(29, 40)], Some(Open(40, 'E'))));
    assert r6 == Case2From6;
  }

  lemma Case2Part1()
    ensures Feed(ScanState([Span(1, 7), Span(11, 22), Span(29, 40)], Some(Open(40, 'E'))), Expand(Case2From6), 50) == Feed(ScanState([Span(1, 7), Span(11, 22), Span(29, 40), Span(41, 50), Span(51, 57), Span(59, 62), Span(63, 65)], None), Expand(Done), 66)
    ensures |Expand(Case2From6)| == 16 + |Expand(Done)|
  {
    var r6 := Case2From6;
    var r7 := r6.tail;
    var r8 := r7.tail;
    var r9 := r8.tail;
    var r10 := r9.tail;
    var r11 := r10.tail;
    FeedRuns(ScanState([Span(1, 7), Span(11, 22), Span(29, 40)], Some(Open(40, 'E'))), r6, 50, ScanState([Span(1, 7), Span(11, 22), Span(29, 40), Span(41, 50)], Some(Open(50, 'H'))));
    FeedRuns(ScanState([Span(1, 7), Span(11, 22), Span(29, 40), Span(41, 50)], Some(Open(50, 'H'))), r7, 57, ScanState([Span(1, 7), Span(11, 22), Span(29, 40), Span(41, 50), Span(51, 57)], None));
    FeedRuns(ScanState([Span(1, 7), Span(11, 22), Span(29, 40), Span(41, 50), Span(51, 57)], None), r8, 58, ScanState([Span(1, 7), Span(11, 22), Span(29, 40), Span(41, 50), Span(51, 57)], Some(Open(58, 'E'))));
    FeedRuns(ScanState([Span(1, 7), Span(11, 22), Span(29, 40), Span(41, 50), Span(51, 57)], Some(Open(58, 'E'))), r9, 62, ScanState([Span(1, 7), Span(11, 22), Span(29, 40), Span(41, 50), Span(51, 57), Span(59, 62)], Some(Open(62, 'H'))));
    FeedRuns(ScanState([Span(1, 7), Span(11, 22), Span(29, 40), Span(41, 50), Span(51, 57), Span(59, 62)], Some(Open(62, 'H'))), r10, 65, ScanState([Span(1, 7), Span(11, 22), Span(29, 40), Span(41, 50), Span(51, 57), Span(59, 62), Span(63, 65)], None));
    assert r11 == Done;
  }

  /** `test_case_2`: the string "HHHHHHH   HHHHHHHHHHHH      HHHHHHHHHHHHEEEEEEEEEEHHHHHHH EEEEHHH " gives the spans (1,7), (11,22), (29,40), (41,50), (51,57), (59,62), (63,65). */
  lemma ScanTestCase2()
    ensures Scan("HHHHHHH   HHHHHHHHHHHH      HHHHHHHHHHHHEEEEEEEEEEHHHHHHH EEEEHHH ") == [Span(1, 7), Span(11, 22), Span(29, 40), Span(41, 50), Span(51, 57), Span(59, 62), Span(63, 65)]
  {
    Case2Text();
    Case2Part0();
    Case2Part1();
  }

  /** The test string "EEEEEEEEE EEEEEEEE EEEEEEEEE H EEEEE H H H EEEEEEEE" (51 residues), as runs. */
  const Case3From12: Runs :=
    More(Run('H', 1), More(Run(' ', 1), More(Run('H', 1), More(Run(' ', 1), More(Run('E', 8), Done)))))
  const Case3From6: Runs :=
    More(Run('H', 1), More(Run(' ', 1), More(Run('E', 5), More(Run(' ', 1), More(Run('H', 1), More(Run(' ', 1), Case3From12))))))
  const Case3Runs: Runs :=
    More(Run('E', 9), More(Run(' ', 1), More(Run('E', 8), More(Run(' ', 1), More(Run('E', 9), More(Run(' ', 1), Case3From6))))))

  lemma Case3From12Text()
    ensures Expand(Case3From12) == "H H EEEEEEEE" + Expand(Done)
  {
    var r0 := Case3From12;
    var r1 := r0.tail;
    var r2 := r1.tail;
    var r3 := r2.tail;
    var r4 := r3.tail;
    var r5 := r4.tail;
    ExpandHead(r0, "H");
    ExpandHead(r1, " ");
    ExpandHead(r2, "H");
    ExpandHead(r3, " ");
    ExpandHead(r4, "EEEEEEEE");
    assert Expand(r0) == "H" + (" " + ("H" + (" " + ("EEEEEEEE" + (Expand(r5))))));
  }

  lemma Case3From6Text()
    ensures Expand(Case3From6) == "H EEEEE H " + Expand(Case3From12)
  {
    var r0 := Case3From6;
    var r1 := r0.tail;
    var r2 := r1.tail;
    var r3 := r2.tail;
    var r4 := r3.tail;
    var r5 := r4.tail;
    var r6 := r5.tail;
    ExpandHead(r0, "H");
    ExpandHead(r1, " ");
    ExpandHead(r2, "EEEEE");
    ExpandHead(r3, " ");
    ExpandHead(r4, "H");
    ExpandHead(r5, " ");
    assert Expand(r0) == "H" + (" " + ("EEEEE" + (" " + ("H" + (" " + (Expand(r6)))))));
  }

  lemma Case3RunsText()
    ensures Expand(Case3Runs) == "EEEEEEEEE EEEEEEEE EEEEEEEEE " + Expand(Case3From6)
  {
    var r0 := Case3Runs;
    var r1 := r0.tail;
    var r2 := r1.tail;
    var r3 := r2.tail;
    var r4 := r3.tail;
    var r5 := r4.tail;
    var r6 := r5.tail;
    ExpandHead(r0, "EEEEEEEEE");
    ExpandHead(r1, " ");
    ExpandHead(r2, "EEEEEEEE");
    ExpandHead(r3, " ");
    ExpandHead(r4, "EEEEEEEEE");
    ExpandHead(r5, " ");
    assert Expand(r0) == "EEEEEEEEE" + (" " + ("EEEEEEEE" + (" " + ("EEEEEEEEE" + (" " + (Expand(r6)))))));
  }

  lemma Case3Join1()
    ensures "EEEEEEEEE EEEEEEEE EEEEEEEEE " + "H EEEEE H " == "EEEEEEEEE EEEEEEEE EEEEEEEEE H EEEEE H "
  {
  }

  lemma Case3Join2()
    ensures "EEEEEEEEE EEEEEEEE EEEEEEEEE H EEEEE H " + "H H EEEEEEEE" == "EEEEEEEEE EEEEEEEE EEEEEEEEE H EEEEE H H H EEEEEEEE"
  {
  }

  /** The run encoding spells the test string of `test_case_3`. */
  lemma Case3Text()
    ensures Expand(Case3Runs) == "EEEEEEEEE EEEEEEEE EEEEEEEEE H EEEEE H H H EEEEEEEE"
  {
    Case3From12Text();
    Case3From6Text();
    Case3RunsText();
    assert Expand(Done) == [];
    assert "H H EEEEEEEE" + [] == "H H EEEEEEEE";
    AppendAssoc("EEEEEEEEE EEEEEEEE EEEEEEEEE ", "H EEEEE H ", "H H EEEEEEEE");
    Case3Join1();
    Case3Join2();
  }

  lemma Case3Part0()
    ensures Feed(ScanState([], None), Expand(Case3Runs), 0) == Feed(ScanState([Span(1, 9), Span(11, 18), Span(20, 28)], None), Expand(Case3From6), 29)
    ensures |Expand(Case3Runs)| == 29 + |Expand(Case3From6)|
  {
    var r0 := Case3Runs;
    var r1 := r0.tail;
    var r2 := r1.tail;
    var r3 := r2.tail;
    var r4 := r3.tail;
    var r5 := r4.tail;
    var r6 := r5.tail;
    FeedRuns(ScanState([], None), r0, 0, ScanState([], Some(Open(0, 'E'))));
    FeedRuns(ScanState([], Some(Open(0, 'E'))), r1, 9, ScanState([Span(1, 9)], None));
    FeedRuns(ScanState([Span(1, 9)], None), r2, 10, ScanState([Span(1, 9)], Some(Open(10, 'E'))));
    FeedRuns(ScanState([Span(1, 9)], Some(Open(10, 'E'))), r3, 18, ScanState([Span(1, 9), Span(11, 18)], None));
    FeedRuns(ScanState([Span(1, 9), Span(11, 18)], None), r4, 19, ScanState([Span(1, 9), Span(11, 18)], Some(Open(19, 'E'))));
    FeedRuns(ScanState([Span(1, 9), Span(11, 18)], Some(Open(19, 'E'))), r5, 28, ScanState([Span(1, 9), Span(11, 18), Span(20, 28)], None));
    assert r6 == Case3From6;
  }

  lemma Case3Part1()
    ensures Feed(ScanState([Span(1, 9), Span(11, 18), Span(20, 28)], None), Expand(Case3From6), 29) == Feed(ScanState([Span(1, 9), Span(11, 18), Span(20, 28), Span(30, 30), Span(32, 36), Span(38, 38)], None), Expand(Case3From12), 39)
    ensures |Expand(Case3From6)| == 10 + |Expand(Case3From12)|
  {
    var r6 := Case3From6;
    var r7 := r6.tail;
    var r8 := r7.tail;
    var r9 := r8.tail;
    var r10 := r9.tail;
    var r11 := r10.tail;
    var r12 := r11.tail;
    FeedRuns(ScanState([Span(1, 9), Span(11, 18), Span(20, 28)], None), r6, 29, ScanState([Span(1, 9), Span(11, 18), Span(20, 28)], Some(Open(29, 'H'))));
    FeedRuns(ScanState([Span(1, 9), Span(11, 18), Span(20, 28)], Some(Open(29, 'H'))), r7, 30, ScanState([Span(1, 9), Span(11, 18), Span(20, 28), Span(30, 30)], None));
    FeedRuns(ScanState([Span(1, 9), Span(11, 18), Span(20, 28), Span(30, 30)], None), r8, 31, ScanState([Span(1, 9), Span(11, 18), Span(20, 28), Span(30, 30)], Some(Open(31, 'E'))));
    FeedRuns(ScanState([Span(1, 9), Span(11, 18), Span(20, 28), Span(30, 30)], Some(Open(31, 'E'))), r9, 36, ScanState([Span(1, 9), Span(11, 18), Span(20, 28), Span(30, 30), Span(32, 36)], None));
    FeedRuns(ScanState([Span(1, 9), Span(11, 18), Span(20, 28), Span(30, 30), Span(32, 36)], None), r10, 37, ScanState([Span(1, 9), Span(11, 18), Span(20, 28), Span(30, 30), Span(32, 36)], Some(Open(37, 'H'))));
    FeedRuns(ScanState([Span(1, 9), Span(11, 18), Span(20, 28), Span(30, 30), Span(32, 36)], Some(Open(37, 'H'))), r11, 38, ScanState([Span(1, 9), Span(11, 18), Span(20, 28), Span(30, 30), Span(32, 36), Span(38, 38)], None));
    assert r12 == Case3From12;
  }

  lemma Case3Part2()
    ensures Feed(ScanState([Span(1, 9), Span(11, 18), Span(20, 28), Span(30, 30), Span(32, 36), Span(38, 38)], None), Expand(Case3From12), 39) == Feed(ScanState([Span(1, 9), Span(11, 18), Span(20, 28), Span(30, 30), Span(32, 36), Span(38, 38), Span(40, 40), Span(42, 42)], Some(Open(43, 'E'))), Expand(Done), 51)
    ensures |Expand(Case3From12)| == 12 + |Expand(Done)|
  {
    var r12 := Case3From12;
    var r13 := r12.tail;
    var r14 := r13.tail;
    var r15 := r14.tail;
    var r16 := r15.tail;
    var r17 := r16.tail;
    FeedRuns(ScanState([Span(1, 9), Span(11, 18), Span(20, 28), Span(30, 30), Span(32, 36), Span(38, 38)], None), r12, 39, ScanState([Span(1, 9), Span(11, 18), Span(20, 28), Span(30, 30), Span(32, 36), Span(38, 38)], Some(Open(39, 'H'))));
    FeedRuns(ScanState([Span(1, 9), Span(11, 18), Span(20, 28), Span(30, 30), Span(32, 36), Span(38, 38)], Some(Open(39, 'H'))), r13, 40, ScanState([Span(1, 9), Span(11, 18), Span(20, 28), Span(30, 30), Span(32, 36), Span(38, 38), Span(40, 40)], None));
    FeedRuns(ScanState([Span(1, 9), Span(11, 18), Span(20, 28), Span(30, 30), Span(32, 36), Span(38, 38), Span(40, 40)], None), r14, 41, ScanState([Span(1, 9), Span(11, 18), Span(20, 28), Span(30, 30), Span(32, 36), Span(38, 38), Span(40, 40)], Some(Open(41, 'H'))));
    FeedRuns(ScanState([Span(1, 9), Span(11, 18), Span(20, 28), Span(30, 30), Span(32, 36), Span(38, 38), Span(40, 40)], Some(Open(41, 'H'))), r15, 42, ScanState([Span(1, 9), Span(11, 18), Span(20, 28), Span(30, 30), Span(32, 36), Span(38, 38), Span(40, 40), Span(42, 42)], None));
    FeedRuns(ScanState([Span(1, 9), Span(11, 18), Span(20, 28), Span(30, 30), Span(32, 36), Span(38, 38), Span(40, 40), Span(42, 42)], None), r16, 43, ScanState([Span(1, 9), Span(11, 18), Span(20, 28), Span(30, 30), Span(32, 36), Span(38, 38), Span(40, 40), Span(42, 42)], Some(Open(43, 'E'))));
    assert r17 == Done;
  }

  /** `test_case_3`: the string "EEEEEEEEE EEEEEEEE EEEEEEEEE H EEEEE H H H EEEEEEEE" gives the spans (1,9), (11,18), (20,28), (30,30), (32,36), (38,38), (40,40), (42,42), (44,51). */
  lemma ScanTestCase3()
    ensures Scan("EEEEEEEEE EEEEEEEE EEEEEEEEE H EEEEE H H H EEEEEEEE") == [Span(1, 9), Span(11, 18), Span(20, 28), Span(30, 30), Span(32, 36), Span(38, 38), Span(40, 40), Span(42, 42), Span(44, 51)]
  {
    Case3Text();
    Case3Part0();
    Case3Part1();
    Case3Part2();
  }
}
