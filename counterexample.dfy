/**
  A concrete input on which running the tag wrapper twice changes the text
  twice: the first run wraps a raw occurrence that only overlaps an existing
  block, and the block it creates swallows the start of that existing block,
  so a raw occurrence that used to sit inside it is exposed.

  The lemmas below work the two scans of `processMessage` out position by
  position on `Before` and on `After`.
*/
module WrapCounterexample {
  import opened Options
  import opened Patterns
  import opened Edits
  import opened Wrapping

  /** A raw `<b>` occurrence whose content reaches into an already wrapped block. */
  const Before: string := "<b>(((<b></b><b></b>)))"

  /** What one run of the wrapper makes of `Before`. */
  const After: string := "(((<b>(((<b></b>)))<b></b>)))"

  lemma {:induction false} LeadsOfB()
    ensures Lead(Raw("b")) == "<b" && Tail(Raw("b")) == "</b>"
    ensures Lead(Wrapped("b")) == "(((<b" && Tail(Wrapped("b")) == "</b>)))"
  {
  }

  lemma {:induction false} BeforeRawLeadAt0()
    ensures HasAt(Before, 0, "<b")
  {
    assert Before[0] == '<' && Before[1] == 'b';
  }

  lemma {:induction false} BeforeCloseAt9()
    ensures HasAt(Before, 9, "</b>")
  {
    assert Before[9] == '<' && Before[10] == '/' && Before[11] == 'b' && Before[12] == '>';
  }

  lemma {:induction false} BeforeRawLeadAt13()
    ensures HasAt(Before, 13, "<b")
  {
    assert Before[13] == '<' && Before[14] == 'b';
  }

  lemma {:induction false} BeforeCloseAt16()
    ensures HasAt(Before, 16, "</b>")
  {
    assert Before[16] == '<' && Before[17] == '/' && Before[18] == 'b' && Before[19] == '>';
  }

  lemma {:induction false} BeforeWrappedLeadAt3()
    ensures HasAt(Before, 3, "(((<b")
  {
    assert Before[3] == '(' && Before[4] == '(' && Before[5] == '(' && Before[6] == '<' && Before[7] == 'b';
  }

  lemma {:induction false} BeforeWrappedCloseAt16()
    ensures HasAt(Before, 16, "</b>)))")
  {
    assert Before[16] == '<' && Before[17] == '/' && Before[18] == 'b' && Before[19] == '>' && Before[20] == ')' && Before[21] == ')' && Before[22] == ')';
  }

  lemma {:induction false} AfterRawLeadAt3()
    ensures HasAt(After, 3, "<b")
  {
    assert After[3] == '<' && After[4] == 'b';
  }

  lemma {:induction false} AfterCloseAt12()
    ensures HasAt(After, 12, "</b>")
  {
    assert After[12] == '<' && After[13] == '/' && After[14] == 'b' && After[15] == '>';
  }

  lemma {:induction false} AfterRawLeadAt19()
    ensures HasAt(After, 19, "<b")
  {
    assert After[19] == '<' && After[20] == 'b';
  }

  lemma {:induction false} AfterCloseAt22()
    ensures HasAt(After, 22, "</b>")
  {
    assert After[22] == '<' && After[23] == '/' && After[24] == 'b' && After[25] == '>';
  }

  lemma {:induction false} AfterWrappedLeadAt0()
    ensures HasAt(After, 0, "(((<b")
  {
    assert After[0] == '(' && After[1] == '(' && After[2] == '(' && After[3] == '<' && After[4] == 'b';
  }

  lemma {:induction false} AfterWrappedCloseAt12()
    ensures HasAt(After, 12, "</b>)))")
  {
    assert After[12] == '<' && After[13] == '/' && After[14] == 'b' && After[15] == '>' && After[16] == ')' && After[17] == ')' && After[18] == ')';
  }

  lemma {:induction false} NoCloseInBefore3To9()
    ensures forall j :: 3 <= j < 9 ==> !HasAt(Before, j, "</b>")
  {
    forall j | 3 <= j < 9 ensures !HasAt(Before, j, "</b>") {
      if j == 3 || j == 4 || j == 5 || j == 7 || j == 8 {
        Mismatch(Before, j, "</b>", 0);
      } else {
        Mismatch(Before, j, "</b>", 1);
      }
    }
  }

  lemma {:induction false} SpelledRawBefore0()
    ensures HasAt(Before, 0, "<b") && HasAt(Before, 2, ">") && HasAt(Before, 9, "</b>")
  {
    BeforeRawLeadAt0();
    assert Before[2] == '>';
    BeforeCloseAt9();
  }

  lemma {:induction false} RawBefore0()
    ensures Attempt(Before, 0, "<b", "</b>", true) == Some(Match(0, 13, 3))
  {
    SpelledRawBefore0();
    NoCloseInBefore3To9();
    AttemptTagAt(Before, 0, "<b", "</b>", 2, 9);
  }

  lemma {:induction false} SpelledRawBefore13()
    ensures HasAt(Before, 13, "<b") && HasAt(Before, 15, ">") && HasAt(Before, 16, "</b>")
  {
    BeforeRawLeadAt13();
    assert Before[15] == '>';
    BeforeCloseAt16();
  }

  lemma {:induction false} RawBefore13()
    ensures Attempt(Before, 13, "<b", "</b>", true) == Some(Match(13, 20, 16))
  {
    SpelledRawBefore13();
    AttemptTagAt(Before, 13, "<b", "</b>", 15, 16);
  }

  lemma {:induction false} NoRawInBefore20To23()
    ensures forall k :: 20 <= k < 23 ==> MatchAt(Raw("b"), Before, k).None?
  {
    LeadsOfB();
    forall k | 20 <= k < 23 ensures MatchAt(Raw("b"), Before, k).None? {
      Mismatch(Before, k, "<b", 0);
      MatchAtNoLead(Raw("b"), Before, k);
    }
  }

  /** The matches of the raw pattern in `Before`. */
  lemma {:induction false} RawBefore()
    ensures RawMatches(Before, "b") == [Match(0, 13, 3), Match(13, 20, 16)]
  {
    LeadsOfB();
    RawBefore0();
    NextIs(Raw("b"), Before, 0, Match(0, 13, 3));
    RawBefore13();
    NextIs(Raw("b"), Before, 13, Match(13, 20, 16));
    NoRawInBefore20To23();
    NextNone(Raw("b"), Before, 20);
    assert Scan(Raw("b"), Before, 20) == [];
    assert Scan(Raw("b"), Before, 13) == [Match(13, 20, 16)];
  }

  lemma {:induction false} NoWrappedInBefore0To3()
    ensures forall k :: 0 <= k < 3 ==> MatchAt(Wrapped("b"), Before, k).None?
  {
    LeadsOfB();
    forall k | 0 <= k < 3 ensures MatchAt(Wrapped("b"), Before, k).None? {
      Mismatch(Before, k, "(((<b", 0);
      MatchAtNoLead(Wrapped("b"), Before, k);
    }
  }

  lemma {:induction false} NoWrappedCloseInBefore9To16()
    ensures forall j :: 9 <= j < 16 ==> !HasAt(Before, j, "</b>)))")
  {
    forall j | 9 <= j < 16 ensures !HasAt(Before, j, "</b>)))") {
      if j == 10 || j == 11 || j == 12 || j == 14 || j == 15 {
        Mismatch(Before, j, "</b>)))", 0);
      } else if j == 9 {
        Mismatch(Before, j, "</b>)))", 4);
      } else {
        Mismatch(Before, j, "</b>)))", 1);
      }
    }
  }

  lemma {:induction false} SpelledWrappedBefore3()
    ensures HasAt(Before, 3, "(((<b") && HasAt(Before, 8, ">") && HasAt(Before, 16, "</b>)))")
  {
    BeforeWrappedLeadAt3();
    assert Before[8] == '>';
    BeforeWrappedCloseAt16();
  }

  lemma {:induction false} WrappedBefore3()
    ensures Attempt(Before, 3, "(((<b", "</b>)))", true) == Some(Match(3, 23, 9))
  {
    SpelledWrappedBefore3();
    NoWrappedCloseInBefore9To16();
    AttemptTagAt(Before, 3, "(((<b", "</b>)))", 8, 16);
  }

  /** The matches of the wrapped pattern in `Before`. */
  lemma {:induction false} WrappedBefore()
    ensures WrappedRanges(Before, "b") == [Match(3, 23, 9)]
  {
    LeadsOfB();
    NoWrappedInBefore0To3();
    WrappedBefore3();
    NextIs(Wrapped("b"), Before, 0, Match(3, 23, 9));
    NextNone(Wrapped("b"), Before, 23);
    assert Scan(Wrapped("b"), Before, 23) == [];
  }

  lemma {:induction false} NoRawInAfter0To3()
    ensures forall k :: 0 <= k < 3 ==> MatchAt(Raw("b"), After, k).None?
  {
    LeadsOfB();
    forall k | 0 <= k < 3 ensures MatchAt(Raw("b"), After, k).None? {
      Mismatch(After, k, "<b", 0);
      MatchAtNoLead(Raw("b"), After, k);
    }
  }

  lemma {:induction false} NoCloseInAfter6To12()
    ensures forall j :: 6 <= j < 12 ==> !HasAt(After, j, "</b>")
  {
    forall j | 6 <= j < 12 ensures !HasAt(After, j, "</b>") {
      if j == 6 || j == 7 || j == 8 || j == 10 || j == 11 {
        Mismatch(After, j, "</b>", 0);
      } else {
        Mismatch(After, j, "</b>", 1);
      }
    }
  }

  lemma {:induction false} SpelledRawAfter3()
    ensures HasAt(After, 3, "<b") && HasAt(After, 5, ">") && HasAt(After, 12, "</b>")
  {
    AfterRawLeadAt3();
    assert After[5] == '>';
    AfterCloseAt12();
  }

  lemma {:induction false} RawAfter3()
    ensures Attempt(After, 3, "<b", "</b>", true) == Some(Match(3, 16, 6))
  {
    SpelledRawAfter3();
    NoCloseInAfter6To12();
    AttemptTagAt(After, 3, "<b", "</b>", 5, 12);
  }

  lemma {:induction false} NoRawInAfter16To19()
    ensures forall k :: 16 <= k < 19 ==> MatchAt(Raw("b"), After, k).None?
  {
    LeadsOfB();
    forall k | 16 <= k < 19 ensures MatchAt(Raw("b"), After, k).None? {
      Mismatch(After, k, "<b", 0);
      MatchAtNoLead(Raw("b"), After, k);
    }
  }

  lemma {:induction false} SpelledRawAfter19()
    ensures HasAt(After, 19, "<b") && HasAt(After, 21, ">") && HasAt(After, 22, "</b>")
  {
    AfterRawLeadAt19();
    assert After[21] == '>';
    AfterCloseAt22();
  }

  lemma {:induction false} RawAfter19()
    ensures Attempt(After, 19, "<b", "</b>", true) == Some(Match(19, 26, 22))
  {
    SpelledRawAfter19();
    AttemptTagAt(After, 19, "<b", "</b>", 21, 22);
  }

  lemma {:induction false} NoRawInAfter26To29()
    ensures forall k :: 26 <= k < 29 ==> MatchAt(Raw("b"), After, k).None?
  {
    LeadsOfB();
    forall k | 26 <= k < 29 ensures MatchAt(Raw("b"), After, k).None? {
      Mismatch(After, k, "<b", 0);
      MatchAtNoLead(Raw("b"), After, k);
    }
  }

  /** The matches of the raw pattern in `After`. */
  lemma {:induction false} RawAfter()
    ensures RawMatches(After, "b") == [Match(3, 16, 6), Match(19, 26, 22)]
  {
    LeadsOfB();
    NoRawInAfter0To3();
    RawAfter3();
    NextIs(Raw("b"), After, 0, Match(3, 16, 6));
    NoRawInAfter16To19();
    RawAfter19();
    NextIs(Raw("b"), After, 16, Match(19, 26, 22));
    NoRawInAfter26To29();
    NextNone(Raw("b"), After, 26);
    assert Scan(Raw("b"), After, 26) == [];
    assert Scan(Raw("b"), After, 16) == [Match(19, 26, 22)];
  }

  /** The wrapped tail starts with the closing tag, so it cannot occur where the closing tag does not. */
  lemma {:induction false} NoWrappedCloseInAfter6To12()
    ensures forall j :: 6 <= j < 12 ==> !HasAt(After, j, "</b>)))")
  {
    NoCloseInAfter6To12();
    assert "</b>)))"[..4] == "</b>";
    forall j | 6 <= j < 12 ensures !HasAt(After, j, "</b>)))") {
      HasAtPrefix(After, j, "</b>)))", 4);
    }
  }

  lemma {:induction false} SpelledWrappedAfter0()
    ensures HasAt(After, 0, "(((<b") && HasAt(After, 5, ">") && HasAt(After, 12, "</b>)))")
  {
    AfterWrappedLeadAt0();
    assert After[5] == '>';
    AfterWrappedCloseAt12();
  }

  lemma {:induction false} WrappedAfter0()
    ensures Attempt(After, 0, "(((<b", "</b>)))", true) == Some(Match(0, 19, 6))
  {
    SpelledWrappedAfter0();
    NoWrappedCloseInAfter6To12();
    AttemptTagAt(After, 0, "(((<b", "</b>)))", 5, 12);
  }

  lemma {:induction false} NoWrappedInAfter19To29()
    ensures forall k :: 19 <= k < 29 ==> MatchAt(Wrapped("b"), After, k).None?
  {
    LeadsOfB();
    forall k | 19 <= k < 29 ensures MatchAt(Wrapped("b"), After, k).None? {
      Mismatch(After, k, "(((<b", 0);
      MatchAtNoLead(Wrapped("b"), After, k);
    }
  }

  /** The matches of the wrapped pattern in `After`. */
  lemma {:induction false} WrappedAfter()
    ensures WrappedRanges(After, "b") == [Match(0, 19, 6)]
  {
    LeadsOfB();
    WrappedAfter0();
    NextIs(Wrapped("b"), After, 0, Match(0, 19, 6));
    NoWrappedInAfter19To29();
    NextNone(Wrapped("b"), After, 19);
    assert Scan(Wrapped("b"), After, 19) == [];
  }

  /** The only replacement the first run collects: the occurrence at [0, 13), which merely overlaps the block at [3, 23). */
  lemma {:induction false} PlanBefore()
    ensures PlanEdits(Before, "b") == [EditFor("b", Before, Match(0, 13, 3))]
  {
    RawBefore();
    WrappedBefore();
    var m0, m1, w0 := Match(0, 13, 3), Match(13, 20, 16), Match(3, 23, 9);
    var ms := [m0, m1];
    assert !AlreadyWrapped(m0, [w0]);
    assert Contains(w0, m1) && AlreadyWrapped(m1, [w0]);
    assert ms[1..] == [m1] && [m1][1..] == [];
    assert PlanFrom("b", Before, [m1], [w0]) == [];
  }

  /** The replacement for the occurrence at [0, 13) is that occurrence in parentheses. */
  lemma {:induction false} EditBefore()
    ensures EditFor("b", Before, Match(0, 13, 3)) == Edit(0, 13, "(((" + Before[0..13] + ")))")
  {
    LeadsOfB();
    RawBefore0();
    ReplacementWraps("b", Before, Match(0, 13, 3));
  }

  /** `Before` cut where the first run's replacement ends. */
  lemma {:induction false} PiecesOfBefore()
    ensures Before[..0] == [] && Before[0..13] == "<b>(((<b></b>" && Before[13..] == "<b></b>)))"
  {
    BeforeHead();
    BeforeRest();
    assert Before[13..] == Before[13..23];
  }

  lemma {:induction false} BeforeHead()
    ensures HasAt(Before, 0, "<b>(((<b></b>")
  {
    assert Before[0] == '<' && Before[1] == 'b' && Before[2] == '>' && Before[3] == '(' && Before[4] == '(' && Before[5] == '(' && Before[6] == '<' && Before[7] == 'b' && Before[8] == '>' && Before[9] == '<' && Before[10] == '/' && Before[11] == 'b' && Before[12] == '>';
  }

  lemma {:induction false} BeforeRest()
    ensures HasAt(Before, 13, "<b></b>)))")
  {
    assert Before[13] == '<' && Before[14] == 'b' && Before[15] == '>' && Before[16] == '<' && Before[17] == '/' && Before[18] == 'b' && Before[19] == '>' && Before[20] == ')' && Before[21] == ')' && Before[22] == ')';
  }

  lemma {:induction false} AfterOpen()
    ensures HasAt(After, 0, "(((")
  {
    assert After[0] == '(' && After[1] == '(' && After[2] == '(';
  }

  lemma {:induction false} AfterMiddle()
    ensures HasAt(After, 3, "<b>(((<b></b>")
  {
    AfterInnerLead();
    AfterInnerTag();
    Join(After, 3, 9, 16);
    assert "<b>(((" + "<b></b>" == "<b>(((<b></b>";
  }

  lemma {:induction false} AfterInnerLead()
    ensures HasAt(After, 3, "<b>(((")
  {
    assert After[3] == '<' && After[4] == 'b' && After[5] == '>' && After[6] == '(' && After[7] == '(' && After[8] == '(';
  }

  lemma {:induction false} AfterInnerTag()
    ensures HasAt(After, 9, "<b></b>")
  {
    assert After[9] == '<' && After[10] == 'b' && After[11] == '>' && After[12] == '<' && After[13] == '/' && After[14] == 'b' && After[15] == '>';
  }

  lemma {:induction false} AfterClose()
    ensures HasAt(After, 16, ")))")
  {
    assert After[16] == ')' && After[17] == ')' && After[18] == ')';
  }

  lemma {:induction false} AfterRest()
    ensures HasAt(After, 19, "<b></b>)))")
  {
    assert After[19] == '<' && After[20] == 'b' && After[21] == '>' && After[22] == '<' && After[23] == '/' && After[24] == 'b' && After[25] == '>' && After[26] == ')' && After[27] == ')' && After[28] == ')';
  }

  /** `After` is the replacement for [0, 13) followed by the rest of `Before`. */
  lemma {:induction false} PiecesOfAfter()
    ensures After == "(((" + "<b>(((<b></b>" + ")))" + "<b></b>)))"
  {
    AfterOpen();
    AfterMiddle();
    AfterClose();
    AfterRest();
    Join(After, 0, 3, 16);
    Join(After, 0, 16, 19);
    Join(After, 0, 19, 29);
    assert After[0..29] == After;
  }

  /** Splicing that replacement into `Before` spells `After`. */
  lemma {:induction false} SpliceBefore()
    ensures Before[..0] + ("(((" + Before[0..13] + ")))") + Before[13..] == After
  {
    PiecesOfBefore();
    PiecesOfAfter();
    var w := "(((" + Before[0..13] + ")))";
    assert Before[..0] + w == w;
  }

  /** The first run wraps the occurrence at [0, 13) and nothing else. */
  lemma {:induction false} FirstRun()
    ensures WrapAsWritten(Before, "b") == After
  {
    PlanBefore();
    EditBefore();
    SpliceBefore();
    var e := Edit(0, 13, "(((" + Before[0..13] + ")))");
    assert ApplyEdits(Before, [e]) == ApplyEdits(Splice(Before, e), []);
  }

  /** The second run finds the occurrence at [19, 26) outside the only wrapped block, [0, 19). */
  lemma {:induction false} SecondRun()
    ensures PlanEdits(After, "b") != []
  {
    RawAfter();
    WrappedAfter();
    var r1, w1 := Match(19, 26, 22), Match(0, 19, 6);
    assert !AlreadyWrapped(r1, [w1]);
    assert EditFor("b", After, r1) in PlanEdits(After, "b");
  }

  /**
    The as-written wrapper is not idempotent: it turns `Before` into `After`,
    and on `After` it finds another occurrence to wrap, so a second run
    changes the message again.
  */
  lemma {:induction false} WrapAsWrittenNotIdempotent()
    ensures WrapAsWritten(Before, "b") == After
    ensures WrapAsWritten(WrapAsWritten(Before, "b"), "b") != WrapAsWritten(Before, "b")
  {
    FirstRun();
    SecondRun();
    WrapAsWrittenChanges(After, "b");
  }
}
