/** A worked example: a short résumé with a name, an e-mail line, a phone
    line and two headed sections, parsed end to end. */
module ResumeExample {
  import opened Optional
  import opened Text
  import opened ResumeParser

  const Lines: seq<string> := ["John Doe", "john@example.com", "555-123-4567", "EDUCATION",
                               "BS CS, State University", "WORK EXPERIENCE", "Engineer at Acme"]

  /** The résumé text: the seven lines with a line feed between each two. */
  const Resume: string :=
    "John Doe" + "\n" + ("john@example.com" + "\n" + ("555-123-4567" + "\n" + ("EDUCATION" + "\n" +
    ("BS CS, State University" + "\n" + ("WORK EXPERIENCE" + "\n" + "Engineer at Acme")))))

  lemma ExampleJoin()
    ensures Resume == JoinLines(Lines)
  {
    assert Lines[1..] == ["john@example.com", "555-123-4567", "EDUCATION",
                          "BS CS, State University", "WORK EXPERIENCE", "Engineer at Acme"];
    assert Lines[1..][1..] == ["555-123-4567", "EDUCATION",
                          "BS CS, State University", "WORK EXPERIENCE", "Engineer at Acme"];
    assert Lines[1..][1..][1..] == ["EDUCATION",
                          "BS CS, State University", "WORK EXPERIENCE", "Engineer at Acme"];
    assert Lines[1..][1..][1..][1..] == ["BS CS, State University", "WORK EXPERIENCE", "Engineer at Acme"];
    assert Lines[1..][1..][1..][1..][1..] == ["WORK EXPERIENCE", "Engineer at Acme"];
    assert Lines[1..][1..][1..][1..][1..][1..] == ["Engineer at Acme"];
  }

  /** No line of the example holds a line feed. */
  lemma ExampleNoBreaks()
    ensures forall p :: p in Lines ==> '\n' !in p
  {
  }

  /** Every line of the example is already cleaned. */
  lemma ExampleClean()
    ensures AllClean(Lines)
  {
  }

  /** The résumé's cleaned lines are its seven lines, and the name is the first. */
  lemma ExampleLines()
    ensures CleanLines(Resume) == Lines
    ensures NameOf(CleanLines(Resume)) == "John Doe"
  {
    ExampleJoin();
    ExampleNoBreaks();
    SplitJoin(Lines);
    ExampleClean();
    KeepNonBlankClean(Lines);
  }

  /** c does not occur in s from index k on, found by a scan Dafny can run
      on literals. */
  predicate AbsentFrom(c: char, s: string, k: nat)
    decreases |s| - k
  {
    k >= |s| || (s[k] != c && AbsentFrom(c, s, k + 1))
  }

  lemma {:induction false} AbsentNotIn(c: char, s: string, k: nat)
    requires AbsentFrom(c, s, k)
    ensures forall t :: k <= t < |s| ==> s[t] != c
    decreases |s| - k
  {
    if k < |s| {
      AbsentNotIn(c, s, k + 1);
    }
  }

  /** The letter c is missing from the line in both cases. */
  predicate Lacks(line: string, c: char) {
    'A' <= c <= 'Z' && c !in line && (c as int + 32) as char !in line
  }

  /** Lacks, found by scanning the line. */
  lemma LacksByScan(line: string, c: char, lc: char)
    requires 'A' <= c <= 'Z' && lc == (c as int + 32) as char
    requires AbsentFrom(c, line, 0) && AbsentFrom(lc, line, 0)
    ensures Lacks(line, c)
  {
    AbsentNotIn(c, line, 0);
    AbsentNotIn(lc, line, 0);
  }

  /** A line that lacks, in both cases, a letter of each of the four keywords
      is no heading; i, j, k and m say which letter of each keyword. */
  lemma NoHeading(line: string, i: nat, j: nat, k: nat, m: nat)
    requires i < 9 && Lacks(line, "EDUCATION"[i])
    requires j < 15 && Lacks(line, "WORK EXPERIENCE"[j])
    requires k < 21 && Lacks(line, "LEADERSHIP EXPERIENCE"[k])
    requires m < 6 && Lacks(line, "SKILLS"[m])
    ensures Classify(line) == None
  {
    var u := Upper(line);
    ClassifyPriority(line);
    UpperMissing(line, "EDUCATION"[i]);
    UpperMissing(line, "WORK EXPERIENCE"[j]);
    UpperMissing(line, "LEADERSHIP EXPERIENCE"[k]);
    UpperMissing(line, "SKILLS"[m]);
    NotContainsMissing(u, "EDUCATION", i);
    NotContainsMissing(u, "WORK EXPERIENCE", j);
    NotContainsMissing(u, "LEADERSHIP EXPERIENCE", k);
    NotContainsMissing(u, "SKILLS", m);
  }

  /** A letter missing from two strings is missing from their concatenation. */
  lemma LacksConcat(a: string, b: string, c: char)
    requires Lacks(a, c) && Lacks(b, c)
    ensures Lacks(a + b, c)
  {
  }

  // The five lines that are not headings. "I" is in all four keywords, so a
  // line without it in either case is no heading; the two lines that have it
  // lack "D" (in the education and leadership keywords) and "K" (in the work
  // and skills keywords). Each line is scanned in pieces of at most eight
  // characters.

  lemma BodyLine0()
    ensures Classify(Lines[0]) == None
  {
    var line := "John Doe";
    LacksByScan(line, 'I', 'i');
    assert line == Lines[0];
    NoHeading(line, 6, 10, 8, 2);
  }

  lemma BodyLine1()
    ensures Classify(Lines[1]) == None
  {
    var a, b := "john@exa", "mple.com";
    LacksByScan(a, 'I', 'i');
    LacksByScan(b, 'I', 'i');
    LacksConcat(a, b, 'I');
    var line := a + b;
    assert line == Lines[1];
    NoHeading(line, 6, 10, 8, 2);
  }

  lemma BodyLine2()
    ensures Classify(Lines[2]) == None
  {
    var a, b := "555-123-", "4567";
    LacksByScan(a, 'I', 'i');
    LacksByScan(b, 'I', 'i');
    LacksConcat(a, b, 'I');
    var line := a + b;
    assert line == Lines[2];
    NoHeading(line, 6, 10, 8, 2);
  }

  lemma ScanLine4()
    ensures Lacks("BS CS, " + "State Un" + "iversity", 'D')
    ensures Lacks("BS CS, " + "State Un" + "iversity", 'K')
  {
    var a, b, c := "BS CS, ", "State Un", "iversity";
    LacksByScan(a, 'D', 'd');
    LacksByScan(b, 'D', 'd');
    LacksByScan(c, 'D', 'd');
    LacksConcat(a, b, 'D');
    LacksConcat(a + b, c, 'D');
    LacksByScan(a, 'K', 'k');
    LacksByScan(b, 'K', 'k');
    LacksByScan(c, 'K', 'k');
    LacksConcat(a, b, 'K');
    LacksConcat(a + b, c, 'K');
  }

  lemma BodyLine4()
    ensures Classify(Lines[4]) == None
  {
    var line := "BS CS, " + "State Un" + "iversity";
    ScanLine4();
    assert line == Lines[4];
    NoHeading(line, 1, 3, 3, 1);
  }

  lemma ScanLine6()
    ensures Lacks("Engineer" + " at Acme", 'D') && Lacks("Engineer" + " at Acme", 'K')
  {
    var a, b := "Engineer", " at Acme";
    LacksByScan(a, 'D', 'd');
    LacksByScan(b, 'D', 'd');
    LacksConcat(a, b, 'D');
    LacksByScan(a, 'K', 'k');
    LacksByScan(b, 'K', 'k');
    LacksConcat(a, b, 'K');
  }

  lemma BodyLine6()
    ensures Classify(Lines[6]) == None
  {
    var line := "Engineer" + " at Acme";
    ScanLine6();
    assert line == Lines[6];
    NoHeading(line, 1, 3, 3, 1);
  }

  /** The two heading lines. */
  lemma ExampleHeadingLines()
    ensures Classify(Lines[3]) == Some(Education)
    ensures Classify(Lines[5]) == Some(WorkExperience)
  {
    UpperNoLower(Lines[3]);
    ContainsSelf(Lines[3]);
    UpperNoLower(Lines[5]);
    ContainsSelf(Lines[5]);
    NotContainsMissing(Lines[5], "EDUCATION", 1);
  }

  /** The pass over three lines before any heading, then a heading, a body
      line, a second heading and a second body line: the first three lines go
      nowhere and each body line goes to the section of the heading above it. */
  lemma TwoHeadedLines(lines: seq<string>, heading: string -> Option<Section>,
                        first: Section, second: Section, sec: Section)
    requires |lines| == 7 && first != second
    requires heading(lines[0]).None? && heading(lines[1]).None? && heading(lines[2]).None?
    requires heading(lines[3]) == Some(first) && heading(lines[4]).None?
    requires heading(lines[5]) == Some(second) && heading(lines[6]).None?
    ensures Owned(lines, heading, None, sec) ==
            if sec == first then [lines[4]] else if sec == second then [lines[6]] else []
  {
    PreambleDropped(lines, heading, 3, sec);
    var t3, t4, t5, t6 := lines[3..], lines[4..], lines[5..], lines[6..];
    assert t3[0] == lines[3] && t3[1..] == t4;
    assert t4[0] == lines[4] && t4[1..] == t5;
    assert t5[0] == lines[5] && t5[1..] == t6;
    assert t6[0] == lines[6] && t6[1..] == [];
    assert Owned(t3, heading, None, sec) == Owned(t4, heading, Some(first), sec);
    assert Owned(t4, heading, Some(first), sec) ==
           (if sec == first then [lines[4]] else []) + Owned(t5, heading, Some(first), sec);
    assert Owned(t5, heading, Some(first), sec) == Owned(t6, heading, Some(second), sec);
    assert Owned(t6, heading, Some(second), sec) == (if sec == second then [lines[6]] else []) + [];
  }

  /** The lines the pass gives one section: the three lines before the first
      heading go nowhere, the line under each heading goes to that heading's
      section, and the other two sections get nothing. */
  lemma ExampleOwned(sec: Section)
    ensures Owned(Lines, Classify, None, sec) ==
            if sec == Education then [Lines[4]]
            else if sec == WorkExperience then [Lines[6]]
            else []
  {
    BodyLine0();
    BodyLine1();
    BodyLine2();
    BodyLine4();
    BodyLine6();
    ExampleHeadingLines();
    TwoHeadedLines(Lines, Classify, Education, WorkExperience, sec);
  }

  /** The record of the example: the name, the e-mail address and the phone
      number lines are kept out of the sections, each section holds the line
      under its heading, and the two sections without a heading are empty. */
  lemma ExampleRecord()
    ensures var r := ResumeOf(Resume);
            r.name == "John Doe" &&
            r.education == "BS CS, State University" &&
            r.workExperience == "Engineer at Acme" &&
            r.leadershipExperience == "" && r.skills == ""
  {
    ExampleLines();
    ExampleOwned(Education);
    ExampleOwned(WorkExperience);
    ExampleOwned(LeadershipExperience);
    ExampleOwned(Skills);
  }
}
