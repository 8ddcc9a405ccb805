/**
  Worked inputs of the cleaner, each derived from the general lemmas.
 */
module Examples {
  import opened Wrappers
  import opened Text
  import opened Normalizers
  import opened Dates
  import opened Rows

  lemma PadExamples()
    ensures Pad2(12) == "12" && Pad2(11) == "11" && Pad4(2022) == "2022"
  {
    assert Pad2(20) == "20" && Pad2(22) == "22";
  }

  lemma IsoExample()
    ensures IsoText(Date(2022, 11, 12)) == "2022-11-12"
  {
    PadExamples();
    RenderFive(ISO_DIRECTIVES, Date(2022, 11, 12));
  }

  /** A day-first date with slashes is read day first. */
  lemma DayFirstExample()
    ensures NormalizeDate("12/11/2022") == "2022-11-12"
  {
    var d := Date(2022, 11, 12);
    PadExamples();
    RenderFive(DMY_SLASH, d);
    assert Render(FORMAT_DIRECTIVES[1], d) == "12/11/2022";
    NormalizeRendered(1, d);
    IsoExample();
  }

  lemma PadExamples2()
    ensures Pad2(5) == "05" && Pad2(6) == "06" && Pad4(2023) == "2023"
  {
    assert Pad2(20) == "20" && Pad2(23) == "23";
  }

  lemma IsoExample2()
    ensures IsoText(Date(2023, 6, 5)) == "2023-06-05"
  {
    PadExamples2();
    RenderFive(ISO_DIRECTIVES, Date(2023, 6, 5));
  }

  /** A slash date that also reads as month first is taken day first. */
  lemma AmbiguousExample()
    ensures NormalizeDate("05/06/2023") == "2023-06-05"
  {
    var d := Date(2023, 6, 5);
    PadExamples2();
    RenderFive(DMY_SLASH, d);
    assert Render(FORMAT_DIRECTIVES[1], d) == "05/06/2023";
    NormalizeRendered(1, d);
    IsoExample2();
  }

  /** The 31st of February fits the day-first dash format but is no date. */
  lemma ImpossibleExample()
    ensures NormalizeDate("31-02-2023") == ""
  {
    var d := Date(2023, 2, 31);
    assert Pad2(31) == "31" && Pad2(2) == "02" && Pad2(20) == "20" && Pad2(23) == "23";
    RenderFive(DMY_DASH, d);
    assert Render(FORMAT_DIRECTIVES[3], d) == "31-02-2023";
    NormalizeRendered(3, d);
  }

  lemma LastWord()
    ensures Split("  LEE") == ["LEE"]
  {
    SplitWordThen("LEE", []);
    assert "LEE" + [] == "LEE";
    assert " LEE" == [' '] + "LEE";
    SplitLeadingSpace(' ', "LEE");
    assert "  LEE" == [' '] + " LEE";
    SplitLeadingSpace(' ', " LEE");
  }

  lemma NameWords()
    ensures Split("ann  LEE") == ["ann", "LEE"]
  {
    LastWord();
    assert "ann  LEE" == "ann" + "  LEE";
    SplitWordThen("ann", "  LEE");
  }

  lemma CapsExample()
    ensures Caps(["ann", "LEE"]) == ["Ann", "Lee"]
  {
    assert Lower("nn") == "nn";
    assert Lower("EE") == "ee";
    assert Capitalize("ann") == "Ann";
    assert Capitalize("LEE") == "Lee";
  }

  lemma StripExample()
    ensures Strip("ann  LEE") == "ann  LEE"
  {
    assert NoEdgeSpace("ann  LEE");
    StripTrimmed("ann  LEE");
  }

  lemma JoinExample()
    ensures JoinSpace(["Ann", "Lee"]) == "Ann Lee"
  {
    assert ["Ann", "Lee"][1..] == ["Lee"];
  }

  /** Words are capitalized and the double space collapses. */
  lemma CleanNameExample()
    ensures CleanName("ann  LEE") == "Ann Lee"
  {
    StripExample();
    NameWords();
    CapsExample();
    JoinExample();
    var words := Split(Strip("ann  LEE"));
    assert words == ["ann", "LEE"];
    assert CleanName("ann  LEE") == JoinSpace(Caps(words));
  }

  lemma AgePadStrip()
    ensures Strip("27 ") == "27"
  {
    assert "27 " == "" + "27" + " ";
    StripPadded("", "27", " ");
  }

  lemma CleanAgeExamples()
    ensures CleanAge("27 ") == "27"
    ensures CleanAge("27") == "27"
    ensures CleanAge("twenty") == ""
    ensures CleanAge("") == ""
    ensures CleanAge("-5") == ""
  {
    AgePadStrip();
    StripTrimmed("27");
    StripTrimmed("twenty");
    StripTrimmed("-5");
  }

  /** Month 13 and day 40 fit the ISO shape in two digits each, but the
      month pattern stops at 12, so no format reads the text. */
  lemma OutOfRangeExample()
    ensures NormalizeDate("2022-13-40") == ""
  {
    var d := Date(2022, 13, 40);
    PadExamples();
    assert Pad2(13) == "13" && Pad2(40) == "40";
    RenderFive(ISO_DIRECTIVES, d);
    assert Render(FORMAT_DIRECTIVES[0], d) == "2022-13-40";
    NormalizeRendered(0, d);
  }

  lemma DayDigit(f: Fields)
    ensures Scan([Day], "7", f) == Some((f.(day := 7), []))
  {
    assert Candidates(Day, "7") == [(7, 1)];
    assert [Day][1..] == [];
  }

  lemma MonthDigit(f: Fields)
    ensures Scan([Month, Lit('-'), Day], "5-7", f) == Some((f.(month := 5).(day := 7), []))
  {
    var dirs := [Month, Lit('-'), Day];
    assert Candidates(Month, "5-7") == [(5, 1)];
    assert dirs[1..] == [Lit('-'), Day] && dirs[1..][1..] == [Day];
    assert "5-7"[1..] == "-7" && "-7"[1..] == "7";
    DayDigit(f.(month := 5));
  }

  lemma YearDigits()
    ensures Scan(ISO_DIRECTIVES, "2023-5-7", DEFAULT_FIELDS) == Some((Fields(2023, 5, 7), []))
  {
    var s := "2023-5-7";
    assert s[..4] == "2023" && AllDigits("2023");
    assert Number("2023") == 2023 by {
      assert "2023"[..3] == "202" && "202"[..2] == "20" && "20"[..1] == "2" && "2"[..0] == [];
    }
    assert Candidates(Year, s) == [(2023, 4)];
    var dirs := ISO_DIRECTIVES;
    assert dirs[1..] == [Lit('-'), Month, Lit('-'), Day] && dirs[1..][1..] == [Month, Lit('-'), Day];
    assert s[4..] == "-5-7" && "-5-7"[1..] == "5-7";
    MonthDigit(DEFAULT_FIELDS.(year := 2023));
  }

  lemma IsoExample3()
    ensures IsoText(Date(2023, 5, 7)) == "2023-05-07"
  {
    PadExamples2();
    assert Pad2(7) == "07";
    RenderFive(ISO_DIRECTIVES, Date(2023, 5, 7));
  }

  /** Single-digit month and day are read by the one-digit alternatives
      of `%m` and `%d`, and come out zero-padded. */
  lemma OneDigitExample()
    ensures NormalizeDate("2023-5-7") == "2023-05-07"
  {
    var s := "2023-5-7";
    var d := Date(2023, 5, 7);
    YearDigits();
    CompileAt(0);
    StrptimeOfScan(s, DATE_FORMATS[0], ISO_DIRECTIVES, d);
    assert FORMAT_DIRECTIVES[0] == ISO_DIRECTIVES;
    FirstMatchAt(DATE_FORMATS, s, 0);
    StripTrimmed(s);
    IsoExample3();
  }
  lemma DoeWord()
    ensures Split("  DOE") == ["DOE"]
  {
    assert "  DOE" == [' '] + " DOE" && " DOE" == [' '] + "DOE";
    SplitLeadingSpace(' ', " DOE");
    SplitLeadingSpace(' ', "DOE");
    SplitWord("DOE");
  }

  lemma JohnWord()
    ensures Split("john") == ["john"]
  {
    SplitWord("john");
  }

  /** The run of three spaces separates like one. */
  lemma JohnWords()
    ensures Split("john   DOE") == ["john", "DOE"]
  {
    assert "john   DOE" == "john" + [' '] + "  DOE";
    SplitAtSpace("john", ' ', "  DOE");
    JohnWord();
    DoeWord();
  }

  lemma JohnStrip()
    ensures Strip("  john   DOE ") == "john   DOE"
  {
    assert "  john   DOE " == "  " + "john   DOE" + " ";
    assert NoEdgeSpace("john   DOE");
    StripPadded("  ", "john   DOE", " ");
  }

  lemma JohnCaps()
    ensures Caps(["john", "DOE"]) == ["John", "Doe"]
  {
    assert Lower("ohn") == "ohn";
    assert Lower("OE") == "oe";
    assert Capitalize("john") == "John";
    assert Capitalize("DOE") == "Doe";
  }

  lemma JohnJoin()
    ensures JoinSpace(["John", "Doe"]) == "John Doe"
  {
    assert ["John", "Doe"][1..] == ["Doe"];
  }

  /** Edge whitespace goes, a run of three spaces collapses to one and
      each word is capitalized. */
  lemma CleanNameSpacesExample()
    ensures CleanName("  john   DOE ") == "John Doe"
  {
    JohnStrip();
    JohnWords();
    JohnCaps();
    JohnJoin();
    var words := Split(Strip("  john   DOE "));
    assert words == ["john", "DOE"];
    assert CleanName("  john   DOE ") == JoinSpace(Caps(words));
  }

  lemma EmailStrip()
    ensures Strip("  John.Doe@Example.COM ") == "John.Doe@Example.COM"
  {
    assert "  John.Doe@Example.COM " == "  " + "John.Doe@Example.COM" + " ";
    assert NoEdgeSpace("John.Doe@Example.COM");
    StripPadded("  ", "John.Doe@Example.COM", " ");
  }

  lemma EmailLower()
    ensures Lower("John.Doe@Example.COM") == "john.doe@example.com"
  {
    var t := "John.Doe@Example.COM";
    var r := "john.doe@example.com";
    assert forall i :: 0 <= i < |t| ==> ToLower(t[i]) == r[i];
  }

  /** An address is trimmed and lower-cased. */
  lemma CleanEmailExample()
    ensures CleanEmail("  John.Doe@Example.COM ") == "john.doe@example.com"
  {
    EmailStrip();
    EmailLower();
  }

  lemma IsoExample4()
    ensures IsoText(Date(2021, 8, 19)) == "2021-08-19"
  {
    assert Pad2(8) == "08" && Pad2(19) == "19" && Pad2(20) == "20" && Pad2(21) == "21";
    assert Pad4(2021) == "2021";
    RenderFive(ISO_DIRECTIVES, Date(2021, 8, 19));
  }

  /** A year-first date with slashes is read by the third format. */
  lemma YearSlashExample()
    ensures NormalizeDate("2021/08/19") == "2021-08-19"
  {
    var d := Date(2021, 8, 19);
    assert Pad2(8) == "08" && Pad2(19) == "19" && Pad2(20) == "20" && Pad2(21) == "21";
    RenderFive(YMD_SLASH, d);
    assert Render(FORMAT_DIRECTIVES[2], d) == "2021/08/19";
    NormalizeRendered(2, d);
    IsoExample4();
  }

  /** Text that opens with a letter is read by no format. */
  lemma NotADateExample()
    ensures NormalizeDate("not a date") == ""
  {
    var s := "not a date";
    StripTrimmed(s);
    assert !AllDigits(s[..4]) by { assert !IsDigit(s[0]); }
    assert Candidates(Day, s) == [];
    forall j | 0 <= j < |DATE_FORMATS| ensures Strptime(s, DATE_FORMATS[j]).None? {
      CompileAt(j);
      var dirs := FORMAT_DIRECTIVES[j];
      if j == 0 || j == 2 {
        YearFirstFails(dirs, s, DEFAULT_FIELDS);
      } else {
        assert dirs[0] == Day;
      }
      StrptimeScanFails(s, DATE_FORMATS[j], dirs);
    }
    FirstMatchIsFirst(DATE_FORMATS, s);
  }
  // ------------------------------------------------- a whole record

  lemma AliceStrip()
    ensures Strip("  alice smith ") == "alice smith"
  {
    assert "  alice smith " == "  " + "alice smith" + " ";
    assert NoEdgeSpace("alice smith");
    StripPadded("  ", "alice smith", " ");
  }

  lemma AliceWords()
    ensures Split("alice smith") == ["alice", "smith"]
  {
    assert "alice smith" == "alice" + [' '] + "smith";
    SplitAtSpace("alice", ' ', "smith");
    AliceWord();
    SmithWord();
  }

  lemma AliceWord()
    ensures Split("alice") == ["alice"]
  {
    SplitWord("alice");
  }

  lemma SmithWord()
    ensures Split("smith") == ["smith"]
  {
    SplitWord("smith");
  }

  lemma AliceName()
    ensures CleanName("  alice smith ") == "Alice Smith"
  {
    AliceStrip();
    AliceWords();
    AliceCaps();
    AliceJoin();
    var words := Split(Strip("  alice smith "));
    assert words == ["alice", "smith"];
    assert CleanName("  alice smith ") == JoinSpace(Caps(words));
  }

  lemma AliceCap()
    ensures Capitalize("alice") == "Alice"
  {
    assert Lower("lice") == "lice";
  }

  lemma SmithCap()
    ensures Capitalize("smith") == "Smith"
  {
    assert Lower("mith") == "mith";
  }

  lemma AliceCaps()
    ensures Caps(["alice", "smith"]) == ["Alice", "Smith"]
  {
    AliceCap();
    SmithCap();
  }

  lemma AliceJoin()
    ensures JoinSpace(["Alice", "Smith"]) == "Alice Smith"
  {
    assert ["Alice", "Smith"][1..] == ["Smith"];
  }

  lemma AliceEmailStrip()
    ensures Strip(" ALICE@EX.COM ") == "ALICE@EX.COM"
  {
    assert " ALICE@EX.COM " == " " + "ALICE@EX.COM" + " ";
    assert NoEdgeSpace("ALICE@EX.COM");
    StripPadded(" ", "ALICE@EX.COM", " ");
  }

  lemma AliceEmailLower()
    ensures Lower("ALICE@EX.COM") == "alice@ex.com"
  {
    var t := "ALICE@EX.COM";
    var r := "alice@ex.com";
    assert forall i :: 0 <= i < |t| ==> ToLower(t[i]) == r[i];
  }

  lemma AliceEmail()
    ensures CleanEmail(" ALICE@EX.COM ") == "alice@ex.com"
  {
    AliceEmailStrip();
    AliceEmailLower();
  }

  lemma AliceCells()
    ensures CleanAge(" 31 ") == "31"
    ensures Strip(" usa ") == "usa"
  {
    assert " 31 " == " " + "31" + " ";
    assert NoEdgeSpace("31");
    StripPadded(" ", "31", " ");
    assert " usa " == " " + "usa" + " ";
    assert NoEdgeSpace("usa");
    StripPadded(" ", "usa", " ");
  }

  /** Leading whitespace does not rescue month 13. */
  lemma AliceDate()
    ensures NormalizeDate(" 2022-13-40") == ""
  {
    assert " 2022-13-40" == " " + "2022-13-40" + "";
    assert NoEdgeSpace("2022-13-40");
    StripPadded(" ", "2022-13-40", "");
    StripTrimmed("2022-13-40");
    OutOfRangeExample();
  }

  /** The record the cleaner reads for a line of cells. */
  function AliceRow(): (r: Row)
    ensures HasColumns(r)
  {
    map[NAME := "  alice smith ", EMAIL := " ALICE@EX.COM ", AGE := " 31 ",
        COUNTRY := " usa ", SIGNUP_DATE := " 2022-13-40"]
  }

  /** Under the header `name,email,age,country,signup_date`, the line
      `  alice smith , ALICE@EX.COM , 31 , usa , 2022-13-40` is written as
      `Alice Smith,alice@ex.com,31,usa,`: the impossible date is emptied
      and the country keeps its case. */
  lemma AliceRecordExample()
    ensures ProcessRow(COLUMNS, AliceRow()) == Line(["Alice Smith", "alice@ex.com", "31", "usa", ""])
  {
    var row := AliceRow();
    assert row[NAME] == "  alice smith " && row[EMAIL] == " ALICE@EX.COM " && row[AGE] == " 31 ";
    assert row[COUNTRY] == " usa " && row[SIGNUP_DATE] == " 2022-13-40";
    ProcessRowColumns(row);
    AliceName();
    AliceEmail();
    AliceCells();
    AliceDate();
  }
}
