/** `parse_resume`: from the text of a résumé to a record of seven strings —
    the name (first non-blank line), the first e-mail address and phone
    number found in the raw text, and four section bodies gathered by a
    single pass that switches section at every heading line. */
module ResumeParser {
  import opened Optional
  import opened Text
  import opened Patterns

  /** The sentinel for a résumé without a non-blank line. */
  const Unknown: string := "Unknown"

  /** The sentinel for an e-mail address or phone number that is not there. */
  const NotFound: string := "Not found"

  datatype Section = Education | WorkExperience | LeadershipExperience | Skills

  const AllSections: set<Section> := {Education, WorkExperience, LeadershipExperience, Skills}

  datatype ResumeRecord = ResumeRecord(
    name: string,
    email: string,
    phone: string,
    education: string,
    workExperience: string,
    leadershipExperience: string,
    skills: string)
  {
    /** The record's text for one section. */
    function Field(sec: Section): string {
      match sec
      case Education => education
      case WorkExperience => workExperience
      case LeadershipExperience => leadershipExperience
      case Skills => skills
    }
  }

  // ---------------------------------------------------------------------
  // Cleaning the lines
  // ---------------------------------------------------------------------

  /** What every cleaned line is: non-empty and stripped. */
  predicate IsCleanLine(l: string) {
    l != [] && IsStripped(l)
  }

  predicate AllClean(lines: seq<string>) {
    forall k :: 0 <= k < |lines| ==> IsCleanLine(lines[k])
  }

  /** One piece, stripped, if its strip is not empty. */
  function KeepOne(part: string): (kept: seq<string>)
    ensures AllClean(kept)
  {
    if Strip(part) != [] then [Strip(part)] else []
  }

  /** The stripped pieces whose strip is not empty, in their order. */
  function KeepNonBlank(parts: seq<string>): (lines: seq<string>)
    ensures AllClean(lines)
  {
    if parts == [] then [] else KeepOne(parts[0]) + KeepNonBlank(parts[1..])
  }

  /** The cleaned lines of a text: its line-feed pieces, each stripped, with
      the blank ones dropped. */
  function CleanLines(text: string): (lines: seq<string>)
    ensures AllClean(lines)
  {
    KeepNonBlank(Split(text))
  }

  /** Cleaning keeps order: the lines of a concatenation are the lines of the
      first part followed by those of the second. */
  lemma {:induction false} KeepNonBlankAppend(a: seq<string>, b: seq<string>)
    ensures KeepNonBlank(a + b) == KeepNonBlank(a) + KeepNonBlank(b)
  {
    if a == [] {
      assert a + b == b;
    } else {
      assert (a + b)[0] == a[0] && (a + b)[1..] == a[1..] + b;
      KeepNonBlankAppend(a[1..], b);
      calc {
        KeepNonBlank(a + b);
        KeepOne(a[0]) + KeepNonBlank(a[1..] + b);
        KeepOne(a[0]) + (KeepNonBlank(a[1..]) + KeepNonBlank(b));
        (KeepOne(a[0]) + KeepNonBlank(a[1..])) + KeepNonBlank(b);
      }
    }
  }

  /** Cleaning lines that are already clean changes nothing. */
  lemma {:induction false} KeepNonBlankClean(parts: seq<string>)
    requires AllClean(parts)
    ensures KeepNonBlank(parts) == parts
  {
    if parts != [] {
      assert IsCleanLine(parts[0]);
      StripStripped(parts[0]);
      assert forall k :: 0 <= k < |parts[1..]| ==> parts[1..][k] == parts[k + 1];
      KeepNonBlankClean(parts[1..]);
      assert parts == [parts[0]] + parts[1..];
    }
  }

  /** Nothing is kept exactly when every piece is blank. */
  lemma {:induction false} KeepNonBlankEmpty(parts: seq<string>)
    ensures KeepNonBlank(parts) == [] <==> forall k :: 0 <= k < |parts| ==> AllSpace(parts[k])
  {
    if parts != [] {
      StripEmptyIff(parts[0]);
      KeepNonBlankEmpty(parts[1..]);
      assert forall k :: 1 <= k < |parts| ==> parts[k] == parts[1..][k - 1];
    }
  }

  /** Index k holds the first piece that is not blank. */
  predicate FirstNonBlankAt(parts: seq<string>, k: int) {
    && 0 <= k < |parts| && Strip(parts[k]) != []
    && forall k' :: 0 <= k' < k ==> Strip(parts[k']) == []
  }

  /** The first kept line is the strip of the first non-blank piece. */
  lemma {:induction false} KeepNonBlankFirst(parts: seq<string>)
    requires KeepNonBlank(parts) != []
    ensures exists k :: FirstNonBlankAt(parts, k) && KeepNonBlank(parts)[0] == Strip(parts[k])
  {
    if Strip(parts[0]) == [] {
      assert KeepNonBlank(parts) == KeepNonBlank(parts[1..]);
      KeepNonBlankFirst(parts[1..]);
      var k :| FirstNonBlankAt(parts[1..], k) && KeepNonBlank(parts[1..])[0] == Strip(parts[1..][k]);
      assert parts[1..][k] == parts[k + 1];
      forall k' | 0 <= k' < k + 1 ensures Strip(parts[k']) == [] {
        if k' > 0 {
          assert parts[k'] == parts[1..][k' - 1];
        }
      }
      assert FirstNonBlankAt(parts, k + 1);
    } else {
      assert FirstNonBlankAt(parts, 0);
    }
  }

  /** A "\n"-join is all whitespace exactly when every piece is. */
  lemma {:induction false} AllSpaceJoin(parts: seq<string>)
    requires |parts| >= 1
    ensures AllSpace(JoinLines(parts)) <==> forall k :: 0 <= k < |parts| ==> AllSpace(parts[k])
  {
    if |parts| > 1 {
      AllSpaceJoin(parts[1..]);
      var j := parts[0] + "\n" + JoinLines(parts[1..]);
      assert j[..|parts[0]|] == parts[0];
      assert j[|parts[0]| + 1..] == JoinLines(parts[1..]);
      assert forall k :: 1 <= k < |parts| ==> parts[k] == parts[1..][k - 1];
      if AllSpace(j) {
        forall k | 0 <= k < |parts[0]| ensures IsSpace(parts[0][k]) {
          assert parts[0][k] == j[k];
        }
        forall k | 0 <= k < |JoinLines(parts[1..])| ensures IsSpace(JoinLines(parts[1..])[k]) {
          assert JoinLines(parts[1..])[k] == j[|parts[0]| + 1 + k];
        }
      }
    }
  }

  /** A text has no non-blank line exactly when it is all whitespace. */
  lemma CleanLinesEmpty(text: string)
    ensures CleanLines(text) == [] <==> AllSpace(text)
  {
    JoinSplit(text);
    AllSpaceJoin(Split(text));
    KeepNonBlankEmpty(Split(text));
  }

  // ---------------------------------------------------------------------
  // The name
  // ---------------------------------------------------------------------

  /** The name: the first cleaned line, or the sentinel when there is none. */
  function NameOf(lines: seq<string>): string {
    if |lines| > 0 then lines[0] else Unknown
  }

  /** The name is the sentinel for an all-whitespace text and otherwise the
      first non-blank line of the text, stripped. */
  lemma NameIsFirstLine(text: string)
    ensures AllSpace(text) ==> NameOf(CleanLines(text)) == Unknown
    ensures !AllSpace(text) ==>
      exists k :: FirstNonBlankAt(Split(text), k) && NameOf(CleanLines(text)) == Strip(Split(text)[k])
  {
    CleanLinesEmpty(text);
    if !AllSpace(text) {
      KeepNonBlankFirst(Split(text));
    }
  }

  /** The name sentinel is in band: a résumé whose first line is "Unknown"
      gets the same name as one without any line. */
  lemma NameSentinelInBand()
    ensures NameOf(CleanLines(Unknown)) == NameOf(CleanLines("")) == Unknown
    ensures !AllSpace(Unknown)
  {
    SplitNoBreak(Unknown);
    StripStripped(Unknown);
    assert !IsSpace(Unknown[0]);
  }

  // ---------------------------------------------------------------------
  // E-mail address and phone number
  // ---------------------------------------------------------------------

  lemma NotFoundIsNoEmail()
    ensures !IsEmail(NotFound)
  {
    forall a | 0 <= a < |NotFound| ensures NotFound[a] != '@' {
    }
  }

  /** The e-mail field: the first match of the e-mail pattern in the raw text,
      or the sentinel exactly when there is none. */
  function EmailOf(text: string): (r: string)
    ensures r == NotFound <==> NoMatch(text, EmailAt)
    ensures r != NotFound ==> exists i, j :: FirstMatch(text, EmailAt, i, j) && r == text[i..j]
  {
    EmailSearch(text);
    NotFoundIsNoEmail();
    match SearchFrom(text, EmailEngine, 0)
    case None => NotFound
    case Some((i, j)) => text[i..j]
  }

  /** The phone field: the first match of the phone pattern in the raw text,
      or the sentinel exactly when there is none. */
  function PhoneOf(text: string): (r: string)
    ensures r == NotFound <==> NoMatch(text, PhoneAt)
    ensures r != NotFound ==> exists i, j :: FirstMatch(text, PhoneAt, i, j) && r == text[i..j]
  {
    PhoneSearch(text);
    assert !IsDigit(NotFound[0]);
    match SearchFrom(text, PhoneEngine, 0)
    case None => NotFound
    case Some((i, j)) => text[i..j]
  }

  /** A phone field that is not the sentinel is 10 to 12 characters long and
      holds exactly ten digits. */
  lemma PhoneFieldShape(text: string)
    ensures PhoneOf(text) != NotFound ==>
              10 <= |PhoneOf(text)| <= 12 && CountDigits(PhoneOf(text)) == 10
  {
    if PhoneOf(text) != NotFound {
      var i, j :| FirstMatch(text, PhoneAt, i, j) && PhoneOf(text) == text[i..j];
      PhoneDigits(text[i..j]);
    }
  }

  // ---------------------------------------------------------------------
  // Headings
  // ---------------------------------------------------------------------

  /** The heading test of the section pass, in its priority order. */
  function Classify(line: string): Option<Section> {
    var u := Upper(line);
    if Contains(u, "EDUCATION") then Some(Education)
    else if Contains(u, "WORK EXPERIENCE") then Some(WorkExperience)
    else if Contains(u, "LEADERSHIP EXPERIENCE") then Some(LeadershipExperience)
    else if Contains(u, "CERTIFICATIONS & SKILLS") || Contains(u, "SKILLS") then Some(Skills)
    else None
  }

  /** The phrase "CERTIFICATIONS & SKILLS" holds "SKILLS". */
  lemma CertificationsHoldsSkills(u: string)
    requires Contains(u, "CERTIFICATIONS & SKILLS")
    ensures Contains(u, "SKILLS")
  {
    var phrase := "CERTIFICATIONS & SKILLS";
    assert phrase[17..23] == "SKILLS";
    assert OccursAt(phrase, "SKILLS", 17);
    ContainsIff(phrase, "SKILLS");
    ContainsTransitive(u, phrase, "SKILLS");
  }

  /** Each outcome of the heading test, both ways, by the four keywords of the
      upper-cased line: the first keyword present wins, and the skills test is
      the plain "SKILLS" test. */
  lemma ClassifyPriority(line: string)
    ensures var u := Upper(line);
      && (Classify(line) == Some(Education) <==> Contains(u, "EDUCATION"))
      && (Classify(line) == Some(WorkExperience) <==>
            !Contains(u, "EDUCATION") && Contains(u, "WORK EXPERIENCE"))
      && (Classify(line) == Some(LeadershipExperience) <==>
            !Contains(u, "EDUCATION") && !Contains(u, "WORK EXPERIENCE")
            && Contains(u, "LEADERSHIP EXPERIENCE"))
      && (Classify(line) == Some(Skills) <==>
            !Contains(u, "EDUCATION") && !Contains(u, "WORK EXPERIENCE")
            && !Contains(u, "LEADERSHIP EXPERIENCE") && Contains(u, "SKILLS"))
      && (Classify(line) == None <==>
            !Contains(u, "EDUCATION") && !Contains(u, "WORK EXPERIENCE")
            && !Contains(u, "LEADERSHIP EXPERIENCE") && !Contains(u, "SKILLS"))
  {
    if Contains(Upper(line), "CERTIFICATIONS & SKILLS") {
      CertificationsHoldsSkills(Upper(line));
    }
  }

  lemma UpperIdempotent(s: string)
    ensures Upper(Upper(s)) == Upper(s)
  {
  }

  /** The heading test ignores case: a line and its upper-cased form classify
      alike. */
  lemma ClassifyIgnoresCase(line: string)
    ensures Classify(Upper(line)) == Classify(line)
  {
    UpperIdempotent(line);
  }

  // ---------------------------------------------------------------------
  // The section pass: its functional specification
  // ---------------------------------------------------------------------
  //
  // The specification of the pass is stated for any heading test `heading`;
  // the parser runs it with `Classify`.

  lemma InAllSections(sec: Section)
    ensures sec in AllSections
  {
  }

  /** The section pointer after passing over `lines` with `cur` current. */
  function Current(lines: seq<string>, heading: string -> Option<Section>, cur: Option<Section>): Option<Section>
    decreases |lines|
  {
    if lines == [] then cur
    else Current(lines[1..], heading, if heading(lines[0]).Some? then heading(lines[0]) else cur)
  }

  /** The lines the pass appends to `sec`, in their order, when it passes over
      `lines` with `cur` current. */
  function Owned(lines: seq<string>, heading: string -> Option<Section>, cur: Option<Section>, sec: Section): seq<string>
    decreases |lines|
  {
    if lines == [] then []
    else match heading(lines[0])
      case Some(h) => Owned(lines[1..], heading, Some(h), sec)
      case None => (if cur == Some(sec) then [lines[0]] else []) + Owned(lines[1..], heading, cur, sec)
  }

  /** A heading line is never appended to a section: what a section gets are
      non-heading lines of the input. */
  lemma {:induction false} OwnedAreBodyLines(lines: seq<string>, heading: string -> Option<Section>,
                                             cur: Option<Section>, sec: Section)
    ensures forall x :: x in Owned(lines, heading, cur, sec) ==> x in lines && heading(x).None?
    decreases |lines|
  {
    if lines != [] {
      var next := if heading(lines[0]).Some? then heading(lines[0]) else cur;
      OwnedAreBodyLines(lines[1..], heading, next, sec);
      assert forall x :: x in lines[1..] ==> x in lines;
    }
  }

  /** A section receives only cleaned lines when the input is cleaned. */
  lemma OwnedClean(lines: seq<string>, heading: string -> Option<Section>, cur: Option<Section>, sec: Section)
    requires AllClean(lines)
    ensures AllClean(Owned(lines, heading, cur, sec))
  {
    OwnedAreBodyLines(lines, heading, cur, sec);
    var r := Owned(lines, heading, cur, sec);
    forall k | 0 <= k < |r| ensures IsCleanLine(r[k]) {
      assert r[k] in r;
      var m :| 0 <= m < |lines| && lines[m] == r[k];
    }
  }

  /** One more line at the end: a heading only moves the pointer; any other
      line goes to the current section, if there is one, and to no other. */
  lemma {:induction false} PassOneMore(p: seq<string>, l: string, heading: string -> Option<Section>,
                                       cur: Option<Section>, sec: Section)
    ensures Current(p + [l], heading, cur) ==
            if heading(l).Some? then heading(l) else Current(p, heading, cur)
    ensures Owned(p + [l], heading, cur, sec) ==
            Owned(p, heading, cur, sec)
            + (if heading(l).None? && Current(p, heading, cur) == Some(sec) then [l] else [])
    decreases |p|
  {
    if p == [] {
      assert [] + [l] == [l];
      assert [l][1..] == [];
    } else {
      var q := p + [l];
      assert q[0] == p[0] && q[1..] == p[1..] + [l];
      var next := if heading(p[0]).Some? then heading(p[0]) else cur;
      PassOneMore(p[1..], l, heading, next, sec);
    }
  }

  /** Every line followed by a space: the raw accumulator of a section. */
  function Terminated(xs: seq<string>): string {
    if xs == [] then "" else Terminated(xs[..|xs| - 1]) + xs[|xs| - 1] + " "
  }

  /** The lines joined by single spaces. */
  function JoinSpace(xs: seq<string>): string {
    if xs == [] then ""
    else if |xs| == 1 then xs[0]
    else JoinSpace(xs[..|xs| - 1]) + " " + xs[|xs| - 1]
  }

  lemma TerminatedOneMore(xs: seq<string>, l: string)
    ensures Terminated(xs + [l]) == Terminated(xs) + l + " "
  {
    assert (xs + [l])[..|xs|] == xs;
  }

  lemma {:induction false} TerminatedIsJoinSpace(xs: seq<string>)
    requires xs != []
    ensures Terminated(xs) == JoinSpace(xs) + " "
  {
    if |xs| > 1 {
      TerminatedIsJoinSpace(xs[..|xs| - 1]);
    } else {
      assert xs[..0] == [];
    }
  }

  lemma {:induction false} JoinSpaceStripped(xs: seq<string>)
    requires xs != []
    requires AllClean(xs)
    ensures JoinSpace(xs) != [] && JoinSpace(xs)[0] == xs[0][0]
    ensures IsStripped(JoinSpace(xs))
  {
    if |xs| > 1 {
      var front := xs[..|xs| - 1];
      assert forall k :: 0 <= k < |front| ==> front[k] == xs[k];
      JoinSpaceStripped(front);
      assert IsCleanLine(xs[|xs| - 1]);
      assert front[0] == xs[0];
    } else {
      assert IsCleanLine(xs[0]);
    }
  }

  /** Stripping a section's accumulator leaves its lines joined by single
      spaces: only the trailing space goes. */
  lemma StripTerminated(xs: seq<string>)
    requires AllClean(xs)
    ensures Strip(Terminated(xs)) == JoinSpace(xs)
  {
    if xs != [] {
      TerminatedIsJoinSpace(xs);
      JoinSpaceStripped(xs);
      StripTrailingSpace(JoinSpace(xs));
    }
  }

  /** A right-only trim of a section's accumulator gives the same text as the
      full strip: only the trailing space goes. */
  lemma TrimRightTerminated(xs: seq<string>)
    requires AllClean(xs)
    ensures TrimRight(Terminated(xs)) == JoinSpace(xs)
  {
    if xs != [] {
      TerminatedIsJoinSpace(xs);
      JoinSpaceStripped(xs);
      var t := JoinSpace(xs) + " ";
      assert t[..|t| - 1] == JoinSpace(xs);
    }
  }

  // ---------------------------------------------------------------------
  // The section pass: a reference definition by position
  // ---------------------------------------------------------------------

  /** The section of the last heading line strictly before index k. */
  function LastHeadingBefore(lines: seq<string>, heading: string -> Option<Section>, k: nat): Option<Section>
    requires k <= |lines|
  {
    if k == 0 then None
    else if heading(lines[k - 1]).Some? then heading(lines[k - 1])
    else LastHeadingBefore(lines, heading, k - 1)
  }

  /** The lines at indices below n that are not headings and whose last
      preceding heading is `sec`, in index order. */
  function Picked(lines: seq<string>, heading: string -> Option<Section>, sec: Section, n: nat): seq<string>
    requires n <= |lines|
  {
    if n == 0 then []
    else Picked(lines, heading, sec, n - 1)
         + (if heading(lines[n - 1]).None? && LastHeadingBefore(lines, heading, n - 1) == Some(sec)
            then [lines[n - 1]] else [])
  }

  /** The pass, started with no section, agrees with the reference definition
      on every prefix. */
  lemma {:induction false} PassIsPicked(lines: seq<string>, heading: string -> Option<Section>, sec: Section, n: nat)
    requires n <= |lines|
    ensures Current(lines[..n], heading, None) == LastHeadingBefore(lines, heading, n)
    ensures Owned(lines[..n], heading, None, sec) == Picked(lines, heading, sec, n)
  {
    if n > 0 {
      PassIsPicked(lines, heading, sec, n - 1);
      assert lines[..n] == lines[..n - 1] + [lines[n - 1]];
      PassOneMore(lines[..n - 1], lines[n - 1], heading, None, sec);
    }
  }

  /** Lines before the first heading go to no section. */
  lemma PreambleDropped(lines: seq<string>, heading: string -> Option<Section>, n: nat, sec: Section)
    requires n <= |lines|
    requires forall k :: 0 <= k < n ==> heading(lines[k]).None?
    ensures Owned(lines, heading, None, sec) == Owned(lines[n..], heading, None, sec)
  {
    var k := 0;
    while k < n
      invariant 0 <= k <= n
      invariant Owned(lines, heading, None, sec) == Owned(lines[k..], heading, None, sec)
    {
      assert lines[k..][0] == lines[k];
      assert lines[k..][1..] == lines[k + 1..];
      k := k + 1;
    }
  }

  /** A section whose heading never appears (and is not current at the start)
      gets no line. */
  lemma {:induction false} AbsentSectionEmpty(lines: seq<string>, heading: string -> Option<Section>,
                                              cur: Option<Section>, sec: Section)
    requires cur != Some(sec)
    requires forall k :: 0 <= k < |lines| ==> heading(lines[k]) != Some(sec)
    ensures Owned(lines, heading, cur, sec) == []
    decreases |lines|
  {
    if lines != [] {
      assert forall k :: 0 <= k < |lines[1..]| ==> lines[1..][k] == lines[k + 1];
      var next := if heading(lines[0]).Some? then heading(lines[0]) else cur;
      AbsentSectionEmpty(lines[1..], heading, next, sec);
    }
  }

  // ---------------------------------------------------------------------
  // The section pass as the source runs it
  // ---------------------------------------------------------------------

  /** One more line, one section: the accumulator grows by the line and a
      space exactly when the line is not a heading and the section is current. */
  lemma AccumulatorOneMore(p: seq<string>, l: string, heading: string -> Option<Section>, sec: Section)
    ensures Terminated(Owned(p + [l], heading, None, sec)) ==
            if heading(l).None? && Current(p, heading, None) == Some(sec)
            then Terminated(Owned(p, heading, None, sec)) + l + " "
            else Terminated(Owned(p, heading, None, sec))
  {
    PassOneMore(p, l, heading, None, sec);
    if heading(l).None? && Current(p, heading, None) == Some(sec) {
      TerminatedOneMore(Owned(p, heading, None, sec), l);
    } else {
      assert Owned(p, heading, None, sec) + [] == Owned(p, heading, None, sec);
    }
  }

  /** `sections` holds, for each of the four sections, the lines the pass over
      `p` gives it, each followed by one space. */
  predicate AccumulatorsAre(sections: map<Section, string>, p: seq<string>, heading: string -> Option<Section>) {
    sections.Keys == AllSections
    && forall sec :: sec in sections ==> sections[sec] == Terminated(Owned(p, heading, None, sec))
  }

  /** A heading, or a line while no section is current, changes no
      accumulator. */
  lemma AccumulatorsKeep(sections: map<Section, string>, current: Option<Section>,
                         p: seq<string>, l: string, heading: string -> Option<Section>)
    requires current == Current(p, heading, None)
    requires AccumulatorsAre(sections, p, heading)
    requires heading(l).Some? || current.None?
    ensures AccumulatorsAre(sections, p + [l], heading)
  {
    forall sec | sec in sections
      ensures sections[sec] == Terminated(Owned(p + [l], heading, None, sec))
    {
      AccumulatorOneMore(p, l, heading, sec);
    }
  }

  /** Any other line is appended with a space to the current section's
      accumulator and to no other. */
  lemma AccumulatorsAppend(sections: map<Section, string>, current: Option<Section>,
                           p: seq<string>, l: string, heading: string -> Option<Section>)
    requires current == Current(p, heading, None)
    requires AccumulatorsAre(sections, p, heading)
    requires heading(l).None? && current.Some?
    ensures current.value in sections
    ensures AccumulatorsAre(sections[current.value := sections[current.value] + l + " "], p + [l], heading)
  {
    InAllSections(current.value);
    var upd := sections[current.value := sections[current.value] + l + " "];
    assert upd.Keys == AllSections;
    forall sec | sec in upd
      ensures upd[sec] == Terminated(Owned(p + [l], heading, None, sec))
    {
      AccumulatorOneMore(p, l, heading, sec);
    }
  }

  /** The loop body keeps the accumulators in step with the pass: a heading
      changes none of them, any other line is appended with a space to the
      current section's accumulator, if there is one. */
  lemma AccumulatorsStep(sections: map<Section, string>, current: Option<Section>,
                         p: seq<string>, l: string, heading: string -> Option<Section>)
    requires current == Current(p, heading, None)
    requires AccumulatorsAre(sections, p, heading)
    ensures Current(p + [l], heading, None) == if heading(l).Some? then heading(l) else current
    ensures heading(l).Some? || current.None? ==> AccumulatorsAre(sections, p + [l], heading)
    ensures heading(l).None? && current.Some? ==>
              current.value in sections
              && AccumulatorsAre(sections[current.value := sections[current.value] + l + " "], p + [l], heading)
  {
    PassOneMore(p, l, heading, None, Education);
    if heading(l).Some? || current.None? {
      AccumulatorsKeep(sections, current, p, l, heading);
    } else {
      AccumulatorsAppend(sections, current, p, l, heading);
    }
  }

  /** The loop over the cleaned lines with a current-section pointer and a
      dictionary of accumulators: each section's accumulator ends up as the
      lines the pass gives it, each followed by one space. */
  method AccumulateSections(lines: seq<string>) returns (sections: map<Section, string>)
    ensures sections.Keys == AllSections
    ensures forall sec :: sec in sections ==> sections[sec] == Terminated(Owned(lines, Classify, None, sec))
  {
    sections := map[Education := "", WorkExperience := "", LeadershipExperience := "", Skills := ""];
    var current: Option<Section> := None;
    for i := 0 to |lines|
      invariant current == Current(lines[..i], Classify, None)
      invariant AccumulatorsAre(sections, lines[..i], Classify)
    {
      var line := lines[i];
      assert lines[..i + 1] == lines[..i] + [line];
      AccumulatorsStep(sections, current, lines[..i], line, Classify);
      var h := Classify(line);
      if h.Some? {
        current := h;
        continue;
      }
      if current.Some? {
        sections := sections[current.value := sections[current.value] + line + " "];
      }
    }
    assert lines[..|lines|] == lines;
  }

  // ---------------------------------------------------------------------
  // The record
  // ---------------------------------------------------------------------

  /** The record `parse_resume` returns for `text`: each section field is the
      lines the pass gives that section, joined by single spaces. */
  function ResumeOf(text: string): ResumeRecord {
    var lines := CleanLines(text);
    ResumeRecord(
      NameOf(lines), EmailOf(text), PhoneOf(text),
      JoinSpace(Owned(lines, Classify, None, Education)),
      JoinSpace(Owned(lines, Classify, None, WorkExperience)),
      JoinSpace(Owned(lines, Classify, None, LeadershipExperience)),
      JoinSpace(Owned(lines, Classify, None, Skills)))
  }

  /** `parse_resume(text)`. */
  method ParseResume(text: string) returns (r: ResumeRecord)
    ensures r == ResumeOf(text)
  {
    var lines := CleanLines(text);
    var name := NameOf(lines);
    var email := EmailOf(text);
    var phone := PhoneOf(text);
    var sections := AccumulateSections(lines);
    r := ResumeRecord(name, email, phone,
                      Strip(sections[Education]),
                      Strip(sections[WorkExperience]),
                      Strip(sections[LeadershipExperience]),
                      Strip(sections[Skills]));
    forall sec: Section
      ensures Strip(Terminated(Owned(lines, Classify, None, sec))) == JoinSpace(Owned(lines, Classify, None, sec))
    {
      OwnedClean(lines, Classify, None, sec);
      StripTerminated(Owned(lines, Classify, None, sec));
    }
  }

  /** Each section field of the record is, by position, exactly the non-heading
      lines whose last preceding heading is that section, joined by spaces. */
  lemma SectionFieldIsPicked(text: string, sec: Section)
    ensures var lines := CleanLines(text);
            ResumeOf(text).Field(sec) == JoinSpace(Picked(lines, Classify, sec, |lines|))
  {
    var lines := CleanLines(text);
    PassIsPicked(lines, Classify, sec, |lines|);
    assert lines[..|lines|] == lines;
  }

  /** The empty text gives the sentinels and four empty sections. */
  lemma EmptyTextRecord()
    ensures ResumeOf("") == ResumeRecord(Unknown, NotFound, NotFound, "", "", "", "")
  {
    assert NoMatch("", EmailAt);
    assert NoMatch("", PhoneAt);
  }
}
