/** The candidate summary that the result panel shows and copies: a fixed
    letter into which the profile's fields, one block per job and one block
    per qualification, and Yes/No for the two flags are interpolated. */
module ResultDisplay {
  import opened Wrappers
  import opened JsStrings
  import opened CvTypes

  // ---------------------------------------------------------------------
  // Blocks and sections
  // ---------------------------------------------------------------------

  /** The four lines of a job: duration, company, position, reason. */
  function JobLines(job: WorkExperience): seq<string> {
    [job.duration, job.company, job.position, "**Reason for leaving: " + job.reasonForLeaving]
  }

  function JobBlock(job: WorkExperience): string {
    Join(JobLines(job), "\n")
  }

  /** The two lines of a qualification: institution, then `course | year`. */
  function QualificationLines(q: Qualification): seq<string> {
    [q.institution, q.course + " | " + q.year]
  }

  function QualificationBlock(q: Qualification): string {
    Join(QualificationLines(q), "\n")
  }

  /** `workHistory.map(...)`: one block per job, in order. */
  function JobBlocks(jobs: seq<WorkExperience>): (blocks: seq<string>)
    ensures |blocks| == |jobs|
    ensures forall k :: 0 <= k < |jobs| ==> blocks[k] == JobBlock(jobs[k])
  {
    seq(|jobs|, k requires 0 <= k < |jobs| => JobBlock(jobs[k]))
  }

  /** `qualifications.map(...)`: one block per qualification, in order. */
  function QualificationBlocks(qs: seq<Qualification>): (blocks: seq<string>)
    ensures |blocks| == |qs|
    ensures forall k :: 0 <= k < |qs| ==> blocks[k] == QualificationBlock(qs[k])
  {
    seq(|qs|, k requires 0 <= k < |qs| => QualificationBlock(qs[k]))
  }

  function ExperienceSection(jobs: seq<WorkExperience>): string {
    Join(JobBlocks(jobs), "\n\n")
  }

  function QualificationsSection(qs: seq<Qualification>): string {
    Join(QualificationBlocks(qs), "\n\n")
  }

  /** `flag ? 'Yes' : 'No'` */
  function YesNo(flag: bool): (r: string)
    ensures flag <==> r == "Yes"
    ensures !flag <==> r == "No"
  {
    if flag then "Yes" else "No"
  }

  // ---------------------------------------------------------------------
  // The letter
  // ---------------------------------------------------------------------

  const Greeting := "Dear Sarah" + "\n\nI hope you are well.\n\nI am pleased to present "
  const PresentedAs := " as a candidate for the role you are hiring for.\n\n\nExperience:\n\n"
  const QualificationsHeading := "\n\n\nQualifications\n\n"
  const NoticeLabel := "\n\n\nNotice Period:                       "
  const SalaryLabel := "\n\nSalary Requirement:            "
  const AgeLabel := "\n\nAge:                                       "
  const LicenseLabel := "\n\nDriver's License:                    "
  const TransportLabel := "\n\nOwn transport:                      "
  const Closing := "\n\n\nReferences:\n\nAvailable upon request.\n\n\nKindly advise if this candidate is of interest to you.\n\n\n" + "Kind Regards"

  /** Everything of the letter up to the age label. */
  function Opening(d: ExtractedCVData): string {
    Greeting + d.fullName + PresentedAs
    + ExperienceSection(d.workHistory)
    + QualificationsHeading + QualificationsSection(d.qualifications)
    + NoticeLabel + d.noticePeriod
    + SalaryLabel + d.salaryRequirement
  }

  /** `formattedText`. */
  function FormattedText(d: ExtractedCVData): string {
    Opening(d)
    + AgeLabel + IntToString(d.age)
    + LicenseLabel + YesNo(d.driversLicense)
    + TransportLabel + YesNo(d.ownTransport)
    + Closing
  }

  /** The part of the letter after the age label's value starts is only
      appended to: the letter starts with everything up to the salary. */
  lemma OpeningStartsLetter(d: ExtractedCVData)
    ensures StartsWith(FormattedText(d), Opening(d))
  {
  }

  /** The opening begins with everything up to the qualifications
      section. */
  lemma OpeningFacts(d: ExtractedCVData)
    ensures var exp := ExperienceSection(d.workHistory);
      var qual := QualificationsSection(d.qualifications);
      var p5 := Greeting + d.fullName + PresentedAs + exp + QualificationsHeading + qual;
      StartsWith(Opening(d), p5)
  {
  }

  /** The letter begins with the greeting, the candidate's name, the
      introduction, the experience section, the qualifications heading and
      the qualifications section, in that order and each verbatim. */
  lemma LetterSections(d: ExtractedCVData)
    ensures StartsWith(FormattedText(d),
      Greeting + d.fullName + PresentedAs + ExperienceSection(d.workHistory)
      + QualificationsHeading + QualificationsSection(d.qualifications))
  {
    OpeningFacts(d);
    OpeningStartsLetter(d);
    var p5 := Greeting + d.fullName + PresentedAs + ExperienceSection(d.workHistory)
      + QualificationsHeading + QualificationsSection(d.qualifications);
    StartsWithTrans(FormattedText(d), Opening(d), p5);
  }

  /** The letter opens with the greeting and closes with the sign-off. */
  lemma LetterFrame(d: ExtractedCVData)
    ensures StartsWith(FormattedText(d), "Dear Sarah")
    ensures EndsWith(FormattedText(d), "Kind Regards")
  {
    var r := FormattedText(d);
    var exp := ExperienceSection(d.workHistory);
    var qual := QualificationsSection(d.qualifications);
    var greetingRest := "\n\nI hope you are well.\n\nI am pleased to present ";
    var p0 := "Dear Sarah";
    assert StartsWith(p0, p0);
    StartsWithAppend(p0, greetingRest, p0);
    var p1 := Greeting + d.fullName;
    StartsWithAppend(Greeting, d.fullName, p0);
    var p2 := p1 + PresentedAs;
    StartsWithAppend(p1, PresentedAs, p0);
    var p3 := p2 + exp;
    StartsWithAppend(p2, exp, p0);
    var p4 := p3 + QualificationsHeading;
    StartsWithAppend(p3, QualificationsHeading, p0);
    StartsWithAppend(p4, qual, p0);
    LetterSections(d);
    StartsWithTrans(r, p4 + qual, p0);

    var closingRest := "\n\n\nReferences:\n\nAvailable upon request.\n\n\nKindly advise if this candidate is of interest to you.\n\n\n";
    assert EndsWith("Kind Regards", "Kind Regards");
    EndsWithPrepend(closingRest, "Kind Regards", "Kind Regards");
    var s6 := Opening(d) + AgeLabel + IntToString(d.age) + LicenseLabel
      + YesNo(d.driversLicense) + TransportLabel + YesNo(d.ownTransport);
    EndsWithPrepend(s6, Closing, "Kind Regards");
  }

  // ---------------------------------------------------------------------
  // Splitting the sections back into blocks and lines
  // ---------------------------------------------------------------------

  predicate NoNewline(s: string) {
    forall i :: 0 <= i < |s| ==> s[i] != '\n'
  }

  predicate NoDoubleNewline(s: string) {
    forall i :: 0 <= i < |s| - 1 ==> !(s[i] == '\n' && s[i + 1] == '\n')
  }

  /** A line without a newline is cleanly delimited by the newline after it. */
  lemma NoNewlineDelimited(s: string)
    requires NoNewline(s)
    ensures EndsBeforeSeparator(s, "\n") && !Contains(s, "\n")
  {
    forall j | 0 <= j <= |s|
      ensures !StartsWith(s[j..], "\n")
    {
      if j < |s| {
        assert s[j..][0] == s[j];
      }
    }
    var t := s + "\n";
    forall j | 0 <= j < |s|
      ensures !StartsWith(t[j..], "\n")
    {
      assert t[j..][0] == s[j];
    }
    assert t[|s|..] == "\n";
    IndexOfIs(t, "\n", |s|);
  }

  /** A block without a blank line that does not end in a newline is
      cleanly delimited by the blank line after it. */
  lemma NoDoubleNewlineDelimited(s: string)
    requires NoDoubleNewline(s)
    requires s == [] || s[|s| - 1] != '\n'
    ensures EndsBeforeSeparator(s, "\n\n") && !Contains(s, "\n\n")
  {
    forall j | 0 <= j <= |s|
      ensures !StartsWith(s[j..], "\n\n")
    {
      if j + 2 <= |s| {
        assert s[j..][0] == s[j] && s[j..][1] == s[j + 1];
      }
    }
    var t := s + "\n\n";
    forall j | 0 <= j < |s|
      ensures !StartsWith(t[j..], "\n\n")
    {
      assert t[j..][0] == s[j];
      if j + 1 < |s| {
        assert t[j..][1] == s[j + 1];
      }
    }
    assert t[|s|..] == "\n\n";
    IndexOfIs(t, "\n\n", |s|);
  }

  /** A newline between a line and a text that does not start with a
      newline creates no blank line. */
  lemma NoDoubleNewlineAcross(a: string, b: string)
    requires NoNewline(a) && NoDoubleNewline(b)
    requires b != [] && b[0] != '\n'
    ensures NoDoubleNewline(a + "\n" + b)
  {
    var s := a + "\n" + b;
    forall i | 0 <= i < |s| - 1
      ensures !(s[i] == '\n' && s[i + 1] == '\n')
    {
      if i < |a| {
        assert s[i] == a[i];
      } else if i == |a| {
        assert s[i + 1] == b[0];
      } else {
        assert s[i] == b[i - |a| - 1] && s[i + 1] == b[i - |a|];
      }
    }
  }

  /** Lines without newlines, all but possibly the first non-empty, join
      into a text without a blank line that does not end in a newline. */
  lemma {:induction false} JoinedLinesHaveNoBlankLine(lines: seq<string>)
    requires |lines| > 0
    requires forall k :: 0 <= k < |lines| ==> NoNewline(lines[k])
    requires forall k :: 1 <= k < |lines| ==> lines[k] != ""
    ensures var s := Join(lines, "\n");
      && NoDoubleNewline(s)
      && (s == [] || s[|s| - 1] != '\n')
      && (lines[0] != "" ==> s != [] && s[0] != '\n')
    decreases |lines|
  {
    if |lines| > 1 {
      var rest := lines[1..];
      JoinedLinesHaveNoBlankLine(rest);
      var b := Join(rest, "\n");
      assert NoNewline(lines[0]);
      NoDoubleNewlineAcross(lines[0], b);
      var s := lines[0] + "\n" + b;
      assert s[|s| - 1] == b[|b| - 1];
      if lines[0] != "" {
        assert s[0] == lines[0][0];
      }
    }
  }

  /** A job that renders as exactly four lines: no field holds a newline,
      and company and position are not empty. */
  predicate SingleLineJob(job: WorkExperience) {
    && NoNewline(job.duration) && NoNewline(job.company)
    && NoNewline(job.position) && NoNewline(job.reasonForLeaving)
    && job.company != "" && job.position != ""
  }

  /** A qualification none of whose fields holds a newline. */
  predicate SingleLineQualification(q: Qualification) {
    NoNewline(q.institution) && NoNewline(q.course) && NoNewline(q.year)
  }

  /** Splitting a block on newlines gives back its lines, and the block is
      cleanly delimited by a blank line. */
  lemma LinesRoundTrip(lines: seq<string>)
    requires |lines| > 0
    requires forall k :: 0 <= k < |lines| ==> NoNewline(lines[k])
    requires forall k :: 1 <= k < |lines| ==> lines[k] != ""
    ensures Split(Join(lines, "\n"), "\n") == lines
    ensures EndsBeforeSeparator(Join(lines, "\n"), "\n\n")
    ensures !Contains(Join(lines, "\n"), "\n\n")
  {
    forall k | 0 <= k < |lines|
      ensures EndsBeforeSeparator(lines[k], "\n") && !Contains(lines[k], "\n")
    {
      NoNewlineDelimited(lines[k]);
    }
    JoinThenSplit(lines, "\n");
    JoinedLinesHaveNoBlankLine(lines);
    NoDoubleNewlineDelimited(Join(lines, "\n"));
  }

  lemma JobLinesClean(job: WorkExperience)
    requires SingleLineJob(job)
    ensures forall k :: 0 <= k < 4 ==> NoNewline(JobLines(job)[k])
    ensures forall k :: 1 <= k < 4 ==> JobLines(job)[k] != ""
  {
    var reason := "**Reason for leaving: " + job.reasonForLeaving;
    assert NoNewline("**Reason for leaving: ");
    assert forall i :: 0 <= i < |reason| ==> reason[i] != '\n' by {
      forall i | 0 <= i < |reason| ensures reason[i] != '\n' {
        if i >= 22 {
          assert reason[i] == job.reasonForLeaving[i - 22];
        }
      }
    }
  }

  lemma QualificationLinesClean(q: Qualification)
    requires SingleLineQualification(q)
    ensures forall k :: 0 <= k < 2 ==> NoNewline(QualificationLines(q)[k])
    ensures QualificationLines(q)[1] != ""
  {
    var line := q.course + " | " + q.year;
    forall i | 0 <= i < |line| ensures line[i] != '\n' {
      if i < |q.course| {
        assert line[i] == q.course[i];
      } else if i >= |q.course| + 3 {
        assert line[i] == q.year[i - |q.course| - 3];
      }
    }
  }

  /** The experience section splits on blank lines into one block per job,
      in order, and each block splits on newlines into duration, company,
      position and the reason line, provided every job is single-line. */
  lemma {:induction false} ExperienceSectionRoundTrip(jobs: seq<WorkExperience>)
    requires |jobs| > 0
    requires forall k :: 0 <= k < |jobs| ==> SingleLineJob(jobs[k])
    ensures |Split(ExperienceSection(jobs), "\n\n")| == |jobs|
    ensures forall k :: 0 <= k < |jobs| ==>
      Split(Split(ExperienceSection(jobs), "\n\n")[k], "\n") == JobLines(jobs[k])
  {
    var blocks := JobBlocks(jobs);
    forall k | 0 <= k < |jobs|
      ensures Split(blocks[k], "\n") == JobLines(jobs[k])
      ensures EndsBeforeSeparator(blocks[k], "\n\n") && !Contains(blocks[k], "\n\n")
    {
      JobLinesClean(jobs[k]);
      LinesRoundTrip(JobLines(jobs[k]));
    }
    JoinThenSplit(blocks, "\n\n");
  }

  /** The qualifications section splits on blank lines into one block per
      qualification, in order, and each block into the institution and the
      `course | year` line, provided no field holds a newline. */
  lemma {:induction false} QualificationsSectionRoundTrip(qs: seq<Qualification>)
    requires |qs| > 0
    requires forall k :: 0 <= k < |qs| ==> SingleLineQualification(qs[k])
    ensures |Split(QualificationsSection(qs), "\n\n")| == |qs|
    ensures forall k :: 0 <= k < |qs| ==>
      Split(Split(QualificationsSection(qs), "\n\n")[k], "\n") == QualificationLines(qs[k])
  {
    var blocks := QualificationBlocks(qs);
    forall k | 0 <= k < |qs|
      ensures Split(blocks[k], "\n") == QualificationLines(qs[k])
      ensures EndsBeforeSeparator(blocks[k], "\n\n") && !Contains(blocks[k], "\n\n")
    {
      QualificationLinesClean(qs[k]);
      LinesRoundTrip(QualificationLines(qs[k]));
    }
    JoinThenSplit(blocks, "\n\n");
  }

  /** Without a company the job block holds a blank line, so splitting the
      section yields more blocks than jobs. */
  lemma EmptyCompanyBreaksRoundTrip(job: WorkExperience)
    requires job.company == ""
    ensures |Split(ExperienceSection([job]), "\n\n")| > 1
  {
    var s := ExperienceSection([job]);
    var lines := JobLines(job);
    assert JobBlocks([job]) == [JobBlock(job)];
    JoinCons(lines[0], lines[1..], "\n");
    assert lines == [lines[0]] + lines[1..];
    JoinCons(lines[1], lines[2..], "\n");
    assert lines[1..] == [lines[1]] + lines[2..];
    assert s == job.duration + "\n" + ("" + "\n" + Join(lines[2..], "\n"));
    assert s[|job.duration|..][..2] == "\n\n";
    ContainsAt(s, "\n\n", |job.duration|);
  }

  /** Likewise an empty position: the blank line sits after the company. */
  lemma EmptyPositionBreaksRoundTrip(job: WorkExperience)
    requires job.position == ""
    ensures |Split(ExperienceSection([job]), "\n\n")| > 1
  {
    var s := ExperienceSection([job]);
    var lines := JobLines(job);
    assert JobBlocks([job]) == [JobBlock(job)];
    JoinCons(lines[0], lines[1..], "\n");
    assert lines == [lines[0]] + lines[1..];
    JoinCons(lines[1], lines[2..], "\n");
    assert lines[1..] == [lines[1]] + lines[2..];
    JoinCons(lines[2], lines[3..], "\n");
    assert lines[2..] == [lines[2]] + lines[3..];
    var k := |job.duration| + 1 + |job.company|;
    assert s == job.duration + "\n" + (job.company + "\n" + ("" + "\n" + Join(lines[3..], "\n")));
    assert s[k..][..2] == "\n\n";
    ContainsAt(s, "\n\n", k);
  }

  /** An empty work history renders as an empty section, which splits into
      one empty block, not none. */
  lemma EmptyHistorySplitsToOneBlock()
    ensures ExperienceSection([]) == ""
    ensures Split(ExperienceSection([]), "\n\n") == [""]
  {
  }

  // ---------------------------------------------------------------------
  // Reading the age and the flags back from the end of the letter
  // ---------------------------------------------------------------------

  datatype Details = Details(age: int, driversLicense: bool, ownTransport: bool)

  function StripSuffix(s: string, t: string): (r: Option<string>)
    ensures r.Some? <==> EndsWith(s, t)
    ensures r.Some? ==> s == r.value + t
  {
    if EndsWith(s, t) then Some(s[..|s| - |t|]) else None
  }

  lemma StripSuffixOfAppend(x: string, t: string)
    ensures StripSuffix(x + t, t) == Some(x)
  {
    assert (x + t)[|x|..] == t;
  }

  /** Reads a trailing `Yes` or `No`. */
  function ReadYesNo(s: string): Option<(bool, string)> {
    match StripSuffix(s, "Yes")
    case Some(rest) => Some((true, rest))
    case None =>
      match StripSuffix(s, "No")
      case Some(rest) => Some((false, rest))
      case None => None
  }

  lemma ReadYesNoRoundTrip(x: string, flag: bool)
    ensures ReadYesNo(x + YesNo(flag)) == Some((flag, x))
  {
    if flag {
      StripSuffixOfAppend(x, "Yes");
    } else {
      EndsWithLast(x + "No", "Yes");
      StripSuffixOfAppend(x, "No");
    }
  }

  /** The number of decimal digits at the end of `s`. */
  function TrailingDigitCount(s: string): (n: nat)
    ensures n <= |s|
    ensures forall i :: |s| - n <= i < |s| ==> IsDigit(s[i])
    decreases |s|
  {
    if |s| > 0 && IsDigit(s[|s| - 1]) then TrailingDigitCount(s[..|s| - 1]) + 1 else 0
  }

  lemma {:induction false} TrailingDigitCountOfAppend(x: string, digits: string)
    requires forall i :: 0 <= i < |digits| ==> IsDigit(digits[i])
    requires x == [] || !IsDigit(x[|x| - 1])
    ensures TrailingDigitCount(x + digits) == |digits|
    decreases |digits|
  {
    if |digits| > 0 {
      var d' := digits[..|digits| - 1];
      assert (x + digits)[..|x + digits| - 1] == x + d';
      TrailingDigitCountOfAppend(x, d');
    } else {
      assert x + digits == x;
    }
  }

  /** Reads the trailing decimal digits of `s` as a number. */
  function ReadNat(s: string): Option<(nat, string)> {
    var n := TrailingDigitCount(s);
    if n == 0 then None else Some((ParseDigits(s[|s| - n..]), s[..|s| - n]))
  }

  /** Reads a trailing integer rendered as `${n}`. */
  function ReadInt(s: string): Option<(int, string)> {
    match ReadNat(s)
    case None => None
    case Some((magnitude, rest)) =>
      if EndsWith(rest, "-") then Some((0 - magnitude, rest[..|rest| - 1]))
      else Some((magnitude, rest))
  }

  /** The digits of `m` are read back off `x + digits` when `x` does not
      end in a digit. */
  lemma ReadNatRoundTrip(x: string, m: nat)
    requires x == [] || !IsDigit(x[|x| - 1])
    ensures ReadNat(x + NatToString(m)) == Some((m, x))
  {
    var digits := NatToString(m);
    TrailingDigitCountOfAppend(x, digits);
    NatToStringRoundTrip(m);
    var s := x + digits;
    assert s[|s| - |digits|..] == digits;
    assert s[..|s| - |digits|] == x;
  }

  lemma ReadIntRoundTrip(x: string, n: int)
    requires x == [] || (!IsDigit(x[|x| - 1]) && x[|x| - 1] != '-')
    ensures ReadInt(x + IntToString(n)) == Some((n, x))
  {
    if n < 0 {
      ReadNegative(x, n);
    } else {
      ReadNatRoundTrip(x, n);
      EndsWithLast(x, "-");
    }
  }

  lemma ReadNegative(x: string, n: int)
    requires n < 0
    requires x == [] || !IsDigit(x[|x| - 1])
    ensures ReadInt(x + IntToString(n)) == Some((n, x))
  {
    var m: nat := -n;
    assert x + IntToString(n) == (x + "-") + NatToString(m);
    ReadMinusDigits(x, m);
  }

  /** A minus sign and the digits of `m` after `x` read back as `-m`. */
  lemma ReadMinusDigits(x: string, m: nat)
    requires x == [] || !IsDigit(x[|x| - 1])
    ensures ReadInt((x + "-") + NatToString(m)) == Some((0 - m, x))
  {
    var x' := x + "-";
    assert x'[|x'| - 1] == '-';
    ReadNatRoundTrip(x', m);
    ReadIntAfterMinus(x' + NatToString(m), m, x);
  }

  /** A magnitude read after a minus sign is negated. */
  lemma ReadIntAfterMinus(s: string, m: nat, x: string)
    requires ReadNat(s) == Some((m, x + "-"))
    ensures ReadInt(s) == Some((0 - m, x))
  {
    var x' := x + "-";
    assert EndsWith(x', "-") by {
      assert x'[|x'| - 1..] == "-";
    }
    assert x'[..|x'| - 1] == x;
  }

  /** Reads the age off the end of `Age: <n>`. */
  function ReadAge(s: string): Option<int> {
    match ReadInt(s)
    case None => None
    case Some((age, rest)) => if EndsWith(rest, AgeLabel) then Some(age) else None
  }

  /** Reads the licence flag and, before it, the age. */
  function ReadLicenseAndAge(s: string): Option<(bool, int)> {
    match ReadYesNo(s)
    case None => None
    case Some((driversLicense, s4)) =>
      match StripSuffix(s4, LicenseLabel)
      case None => None
      case Some(s5) =>
        match ReadAge(s5)
        case None => None
        case Some(age) => Some((driversLicense, age))
  }

  /** Reads age, licence and transport off the end of a letter. */
  function DecodeDetails(letter: string): Option<Details> {
    match StripSuffix(letter, Closing)
    case None => None
    case Some(s1) =>
      match ReadYesNo(s1)
      case None => None
      case Some((ownTransport, s2)) =>
        match StripSuffix(s2, TransportLabel)
        case None => None
        case Some(s3) =>
          match ReadLicenseAndAge(s3)
          case None => None
          case Some((driversLicense, age)) => Some(Details(age, driversLicense, ownTransport))
  }

  lemma ReadAgeRoundTrip(x: string, age: int)
    ensures ReadAge(x + AgeLabel + IntToString(age)) == Some(age)
  {
    var s6 := x + AgeLabel;
    assert s6[|s6| - 1] == ' ';
    ReadIntRoundTrip(s6, age);
    StripSuffixOfAppend(x, AgeLabel);
  }

  lemma ReadLicenseAndAgeRoundTrip(x: string, age: int, driversLicense: bool)
    ensures ReadLicenseAndAge(x + AgeLabel + IntToString(age) + LicenseLabel + YesNo(driversLicense))
      == Some((driversLicense, age))
  {
    var s5 := x + AgeLabel + IntToString(age);
    ReadYesNoRoundTrip(s5 + LicenseLabel, driversLicense);
    StripSuffixOfAppend(s5, LicenseLabel);
    ReadAgeRoundTrip(x, age);
  }

  /** The end of the letter, after any text `x`, decodes back to the age
      and the two flags. */
  lemma DetailsTailRoundTrip(x: string, age: int, driversLicense: bool, ownTransport: bool)
    ensures DecodeDetails(x + AgeLabel + IntToString(age) + LicenseLabel + YesNo(driversLicense)
      + TransportLabel + YesNo(ownTransport) + Closing) == Some(Details(age, driversLicense, ownTransport))
  {
    var s3 := x + AgeLabel + IntToString(age) + LicenseLabel + YesNo(driversLicense);
    var s1 := s3 + TransportLabel + YesNo(ownTransport);
    StripSuffixOfAppend(s1, Closing);
    ReadYesNoRoundTrip(s3 + TransportLabel, ownTransport);
    StripSuffixOfAppend(s3, TransportLabel);
    ReadLicenseAndAgeRoundTrip(x, age, driversLicense);
  }

  /** Whatever the other fields hold, the age and the two flags can be read
      back from every letter: they are rendered verbatim as the decimal
      number and as Yes/No. */
  lemma {:induction false} DetailsRoundTrip(d: ExtractedCVData)
    ensures DecodeDetails(FormattedText(d)) == Some(Details(d.age, d.driversLicense, d.ownTransport))
  {
    DetailsTailRoundTrip(Opening(d), d.age, d.driversLicense, d.ownTransport);
  }
}
