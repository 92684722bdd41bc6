/**
 * `TeamRecord` and its parser `TeamRecord.from_string`: a "W-L-OT" cell of the
 * standings table read into three integers.
 */
module TeamRecords {
  import opened Results
  import opened Text

  /** A wins / losses / overtime-losses triplet. */
  datatype TeamRecord = TeamRecord(wins: int, losses: int, overtimeLosses: int)

  predicate NonNegative(r: TeamRecord) {
    r.wins >= 0 && r.losses >= 0 && r.overtimeLosses >= 0
  }

  /** A record whose canonical text `from_string` can read back: no negative
      count, and no count too long for `int`. */
  predicate Readable(r: TeamRecord) {
    && NonNegative(r)
    && FitsDigitLimit(r.wins) && FitsDigitLimit(r.losses) && FitsDigitLimit(r.overtimeLosses)
  }

  /** `TeamRecord.from_string`: strip, split on '-', require exactly three
      pieces and read each with `int`; `None` stands for the `ValueError` the
      source raises otherwise. */
  function FromString(recordStr: string): Option<TeamRecord> {
    var parts := Split(Strip(recordStr), '-');
    if |parts| != 3 then None
    else
      var w :- ParseInt(parts[0]);
      var l :- ParseInt(parts[1]);
      var ot :- ParseInt(parts[2]);
      Some(TeamRecord(w, l, ot))
  }

  /** Since '-' is the split character no piece can carry a minus sign: every
      record read is non-negative, and its text holds exactly two dashes. */
  lemma FromStringNonNegative(s: string)
    ensures FromString(s).Some? ==> NonNegative(FromString(s).value)
    ensures FromString(s).Some? ==> Count(Strip(s), '-') == 2
  {
    var parts := Split(Strip(s), '-');
    SplitCount(Strip(s), '-');
    SplitShape(Strip(s), '-');
    if |parts| == 3 {
      ParseIntUnsigned(parts[0]);
      ParseIntUnsigned(parts[1]);
      ParseIntUnsigned(parts[2]);
    }
  }

  lemma SmallReadable(r: TeamRecord)
    requires 0 <= r.wins < MaxIntDigits && 0 <= r.losses < MaxIntDigits
    requires 0 <= r.overtimeLosses < MaxIntDigits
    ensures Readable(r)
  {
    SmallFitsDigitLimit(r.wins);
    SmallFitsDigitLimit(r.losses);
    SmallFitsDigitLimit(r.overtimeLosses);
  }

  /** `t` is three dash-free pieces joined by two dashes. */
  ghost predicate Decomposes(t: string, a: string, b: string, c: string) {
    '-' !in a && '-' !in b && '-' !in c && t == a + "-" + b + "-" + c
  }

  lemma JoinThree(a: string, b: string, c: string)
    ensures Join([a, b, c], '-') == a + "-" + b + "-" + c
  {
    assert [a, b, c][1..] == [b, c];
    assert [b, c][1..] == [c];
    assert Join([b, c], '-') == b + "-" + c;
  }

  /** The canonical text of a record, as the standings page prints it. */
  function RecordText(r: TeamRecord): string
    requires NonNegative(r)
  {
    NatToString(r.wins) + "-" + NatToString(r.losses) + "-" + NatToString(r.overtimeLosses)
  }

  /** Every record read comes from a stripped text of the shape "a-b-c" whose
      pieces are integers, mapped to wins, losses and overtime losses in that
      order. */
  lemma FromStringSound(s: string, rec: TeamRecord)
    requires FromString(s) == Some(rec)
    ensures exists a, b, c ::
      (&& Decomposes(Strip(s), a, b, c)
       && ParseInt(a) == Some(rec.wins) && ParseInt(b) == Some(rec.losses)
       && ParseInt(c) == Some(rec.overtimeLosses))
  {
    var t := Strip(s);
    var parts := Split(t, '-');
    SplitShape(t, '-');
    var a, b, c := parts[0], parts[1], parts[2];
    assert ParseInt(a) == Some(rec.wins) && ParseInt(b) == Some(rec.losses)
      && ParseInt(c) == Some(rec.overtimeLosses);
    assert Decomposes(t, a, b, c) by {
      assert parts == [a, b, c];
      JoinThree(a, b, c);
    }
  }

  /** Conversely, a stripped text of the shape "a-b-c" is read exactly when
      all three pieces are integers, and then positionally. */
  lemma FromStringComplete(s: string, a: string, b: string, c: string)
    requires Decomposes(Strip(s), a, b, c)
    ensures FromString(s).Some? <==> ParseInt(a).Some? && ParseInt(b).Some? && ParseInt(c).Some?
    ensures FromString(s).Some? ==>
      FromString(s).value == TeamRecord(ParseInt(a).value, ParseInt(b).value, ParseInt(c).value)
  {
    var parts := [a, b, c];
    JoinThree(a, b, c);
    SplitJoin(parts, '-');
  }

  /** `int` reads back what `str` writes. */
  lemma ParseNatToString(n: nat)
    requires FitsDigitLimit(n)
    ensures ParseInt(NatToString(n)) == Some(n)
    ensures '-' !in NatToString(n)
  {
    ParseIntToString(n, [], []);
    assert [] + NatToString(n) + [] == NatToString(n);
  }

  lemma DigitsNoDash(s: string)
    requires AllDigits(s)
    ensures '-' !in s
  {
  }

  /** The canonical text is trimmed and made of three integer pieces. */
  lemma RecordTextShape(r: TeamRecord)
    requires NonNegative(r)
    ensures Trimmed(RecordText(r))
    ensures Decomposes(RecordText(r), NatToString(r.wins), NatToString(r.losses), NatToString(r.overtimeLosses))
  {
    var w, ot := NatToString(r.wins), NatToString(r.overtimeLosses);
    var core := RecordText(r);
    assert core[0] == w[0] && IsDigit(core[0]);
    assert core[|core| - 1] == ot[|ot| - 1] && IsDigit(core[|core| - 1]);
    DigitsNoDash(w);
    DigitsNoDash(NatToString(r.losses));
    DigitsNoDash(ot);
  }

  /** Reading the canonical text of a record, with any surrounding
      whitespace, gives the record back. */
  lemma FromStringRoundTrip(r: TeamRecord, pre: string, post: string)
    requires Readable(r) && AllSpace(pre) && AllSpace(post)
    ensures FromString(pre + RecordText(r) + post) == Some(r)
  {
    var w, l, ot := NatToString(r.wins), NatToString(r.losses), NatToString(r.overtimeLosses);
    RecordTextShape(r);
    StripPadded(pre, RecordText(r), post);
    ParseNatToString(r.wins);
    ParseNatToString(r.losses);
    ParseNatToString(r.overtimeLosses);
    FromStringComplete(pre + RecordText(r) + post, w, l, ot);
  }

  /** Fewer or more than two dashes after stripping is always an error. */
  lemma FromStringWrongArity(s: string)
    requires Count(Strip(s), '-') != 2
    ensures FromString(s) == None
  {
    FromStringNonNegative(s);
  }

  /** Rejections: too few pieces, too many pieces, a non-numeric piece and
      the empty string. */
  lemma FromStringRejectsTwoPieces()
    ensures FromString("41-31") == None
  {
    StripTrimmed("41-31");
    assert Count("-31", '-') == 1;
    FromStringWrongArity("41-31");
  }

  lemma FromStringRejectsFourPieces()
    ensures FromString("41-31-10-5") == None
  {
    StripTrimmed("41-31-10-5");
    assert Count("-5", '-') == 1;
    assert Count("-10-5", '-') == 2;
    assert Count("-31-10-5", '-') == 3;
    FromStringWrongArity("41-31-10-5");
  }

  lemma FromStringRejectsNonNumeric()
    ensures FromString("x-1-2") == None
  {
    StripTrimmed("x-1-2");
    assert Decomposes("x-1-2", "x", "1", "2");
    FromStringComplete("x-1-2", "x", "1", "2");
    StripTrimmed("x");
  }

  lemma FromStringRejectsEmpty()
    ensures FromString("") == None
  {
    StripTrimmed("");
  }

  /** The worked example: "41-31-10" reads as 41 wins, 31 losses and 10
      overtime losses. */
  lemma FromStringExample()
    ensures FromString("41-31-10") == Some(TeamRecord(41, 31, 10))
  {
    var r := TeamRecord(41, 31, 10);
    SmallReadable(r);
    assert RecordText(r) == "41-31-10" by {
      assert NatToString(41) == "41";
      assert NatToString(31) == "31";
      assert NatToString(10) == "10";
    }
    FromStringRoundTrip(r, [], []);
    assert [] + "41-31-10" + [] == "41-31-10";
  }

  /** `strip` removes an information separator at either end, but `int` does
      not skip one: a record with a separator after its wins is rejected. */
  lemma FromStringRejectsSeparator()
    ensures FromString("41\U{1C}-31-10") == None
  {
    var s := "41\U{1C}-31-10";
    StripTrimmed(s);
    assert Decomposes(s, "41\U{1C}", "31", "10");
    FromStringComplete(s, "41\U{1C}", "31", "10");
    assert !NoInfoSeparator("41\U{1C}") by {
      assert IsInfoSeparator("41\U{1C}"[2]);
    }
  }
}
