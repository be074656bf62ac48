/** Decimal numerals as Python prints and reads them. */
module Numerals {
  predicate IsDigit(c: char) { '0' <= c <= '9' }

  predicate AllDigits(s: string) { forall i | 0 <= i < |s| :: IsDigit(s[i]) }

  /** `[1-9][0-9]*` */
  predicate IsPositiveNumeral(s: string) { s != [] && s[0] != '0' && AllDigits(s) }

  function DigitOf(d: nat): char
    requires d < 10
  {
    '0' + d as char
  }

  function ValueOf(c: char): nat
    requires IsDigit(c)
  {
    (c - '0') as nat
  }

  /** `str(n)` */
  function Decimal(n: nat): (s: string)
    ensures s != [] && AllDigits(s) && (n > 0 ==> s[0] != '0')
  {
    if n < 10 then [DigitOf(n)] else Decimal(n / 10) + [DigitOf(n % 10)]
  }

  /** `int(s)` */
  function Value(s: string): nat
    requires AllDigits(s)
  {
    if s == [] then 0 else 10 * Value(s[..|s| - 1]) + ValueOf(s[|s| - 1])
  }

  /** `f"{n:0{width}d}"` */
  function Padded(width: nat, n: nat): string {
    var s := Decimal(n);
    if |s| >= width then s else seq(width - |s|, _ => '0') + s
  }

  lemma {:induction false} ValueOfDecimal(n: nat)
    ensures Value(Decimal(n)) == n
  {
    if n >= 10 {
      ValueOfDecimal(n / 10);
      assert Decimal(n)[..|Decimal(n)| - 1] == Decimal(n / 10);
    }
  }

  lemma {:induction false} ValuePositive(s: string)
    requires IsPositiveNumeral(s)
    ensures Value(s) > 0
  {
    if |s| > 1 { ValuePositive(s[..|s| - 1]); }
  }

  lemma {:induction false} DecimalOfValue(s: string)
    requires IsPositiveNumeral(s)
    ensures Decimal(Value(s)) == s
  {
    var n := |s| - 1;
    if n > 0 {
      ValuePositive(s[..n]);
      DecimalOfValue(s[..n]);
      assert Value(s) / 10 == Value(s[..n]) && Value(s) % 10 == ValueOf(s[n]);
      assert s == s[..n] + [s[n]];
    } else {
      assert s[..0] == [];
      assert s == [s[0]];
    }
  }

  lemma {:induction false} ValueOfZeros(s: string, zeros: nat)
    requires AllDigits(s)
    ensures AllDigits(seq(zeros, _ => '0') + s) && Value(seq(zeros, _ => '0') + s) == Value(s)
  {
    var t := seq(zeros, _ => '0') + s;
    if s != [] {
      ValueOfZeros(s[..|s| - 1], zeros);
      assert t[..|t| - 1] == seq(zeros, _ => '0') + s[..|s| - 1];
    } else if zeros > 0 {
      ValueOfZeros(s, zeros - 1);
      assert t[..|t| - 1] == seq(zeros - 1, _ => '0') + s;
    }
  }

  lemma ValueOfPadded(width: nat, n: nat)
    ensures AllDigits(Padded(width, n)) && Value(Padded(width, n)) == n
  {
    ValueOfDecimal(n);
    if |Decimal(n)| < width {
      ValueOfZeros(Decimal(n), width - |Decimal(n)|);
    }
  }

  /** Two strings of equally many digits with the same value are the same. */
  lemma {:induction false} SameWidthSameValue(s: string, t: string)
    requires AllDigits(s) && AllDigits(t) && |s| == |t| && Value(s) == Value(t)
    ensures s == t
  {
    if s != [] {
      var n := |s| - 1;
      SameWidthSameValue(s[..n], t[..n]);
      assert s == s[..n] + [s[n]] && t == t[..n] + [t[n]];
    }
  }

  /** How many digits `s` starts with. */
  function LeadingDigits(s: string): (n: nat)
    ensures n <= |s| && AllDigits(s[..n]) && (n < |s| ==> !IsDigit(s[n]))
  {
    if s == [] || !IsDigit(s[0]) then 0
    else
      var n := LeadingDigits(s[1..]);
      assert s[..n + 1] == [s[0]] + s[1..][..n];
      n + 1
  }
}

/** The CalVer printer of `scripts/release_metadata.py` and the independent tag parser of
    `scripts/verify_release_consumer.py`. */
module ReleaseTag {
  import opened Wrappers
  import opened Numerals

  datatype Channel = Candidate | Gold | Unsupported

  datatype Metadata = Metadata(version: string, pythonVersion: string, tag: string, imageTag: string, title: string,
                               channel: Channel, pullRequest: nat, commit: string, candidate: Option<nat>)

  datatype MetadataError = BadPullRequest | BadCommit | BadTimestamp | CandidateNumberNeeded | GoldHasCandidate | BadChannel

  /** The calendar month of the merge; a `datetime` year is 1..9999. */
  datatype Month = Month(year: nat, month: nat)

  predicate IsMonth(m: Month) { 1 <= m.year <= 9999 && 1 <= m.month <= 12 }

  predicate IsCommit(s: string) {
    |s| == 40 && forall i | 0 <= i < 40 :: '0' <= s[i] <= '9' || 'a' <= s[i] <= 'f'
  }

  function Version(m: Month, pr: nat): string {
    Padded(4, m.year) + "." + Padded(2, m.month) + "." + Decimal(pr)
  }

  function Suffix(candidate: Option<nat>): string {
    match candidate case None => "" case Some(n) => "-rc." + Decimal(n)
  }

  /** `derive_release_metadata`; `merged` is `None` when the timestamp does not parse. */
  function Derive(pr: int, merged: Option<Month>, commit: string, channel: Channel, candidate: Option<int>): Result<Metadata, MetadataError> {
    if pr < 1 then Err(BadPullRequest)
    else if !IsCommit(commit) then Err(BadCommit)
    else if merged.None? then Err(BadTimestamp)
    else match channel
      case Candidate =>
        if candidate.None? || candidate.value < 1 then Err(CandidateNumberNeeded)
        else Ok(Named(pr, merged.value, commit, Candidate, Some(candidate.value)))
      case Gold =>
        if candidate.Some? then Err(GoldHasCandidate)
        else Ok(Named(pr, merged.value, commit, Gold, None))
      case Unsupported => Err(BadChannel)
  }

  function Named(pr: nat, m: Month, commit: string, channel: Channel, candidate: Option<nat>): Metadata {
    var version := Version(m, pr);
    Metadata(version, Decimal(m.year) + "." + Decimal(m.month) + "." + Decimal(pr),
             "v" + version + Suffix(candidate), version + Suffix(candidate),
             "Maru " + version + (match candidate case None => "" case Some(n) => " release candidate " + Decimal(n)),
             channel, pr, commit, candidate)
  }

  /** A release is named exactly for a positive pull request, a full lower-case commit hash, a
      readable merge time and a candidate number that fits the channel; it keeps that commit,
      and every refusal names the first of these that is missing. */
  lemma ReleasesAreNamedExactly(pr: int, merged: Option<Month>, commit: string, channel: Channel, candidate: Option<int>)
    ensures var r := Derive(pr, merged, commit, channel, candidate);
            var hash := |commit| == 40 && forall i | 0 <= i < 40 :: commit[i] in "0123456789abcdef";
            && (r.Ok? <==> pr >= 1 && hash && merged.Some?
                           && ((channel == Candidate && candidate.Some? && candidate.value >= 1) || (channel == Gold && candidate.None?)))
            && (r.Ok? ==> r.value.commit == commit)
            && (r == Err(BadPullRequest) <==> pr < 1)
            && (r == Err(BadCommit) <==> pr >= 1 && !hash)
            && (r == Err(BadTimestamp) <==> pr >= 1 && hash && merged.None?)
            && (r == Err(BadChannel) ==> channel == Unsupported)
            && (r == Err(CandidateNumberNeeded) ==> channel == Candidate && (candidate.None? || candidate.value < 1))
            && (r == Err(GoldHasCandidate) ==> channel == Gold && candidate.Some?)
  {
    forall i | 0 <= i < |commit| ensures commit[i] in "0123456789abcdef" <==> '0' <= commit[i] <= '9' || 'a' <= commit[i] <= 'f' {
      HexDigit(commit[i]);
    }
  }

  lemma HexDigit(c: char)
    ensures c in "0123456789abcdef" <==> '0' <= c <= '9' || 'a' <= c <= 'f'
  {
    var digits := "0123456789abcdef";
    assert digits[0] == '0' && digits[1] == '1' && digits[2] == '2' && digits[3] == '3' && digits[4] == '4' && digits[5] == '5';
    assert digits[6] == '6' && digits[7] == '7' && digits[8] == '8' && digits[9] == '9' && digits[10] == 'a' && digits[11] == 'b';
    assert digits[12] == 'c' && digits[13] == 'd' && digits[14] == 'e' && digits[15] == 'f';
  }

  /** The named groups of TAG_PATTERN. */
  datatype Groups = Groups(year: string, month: string, pr: string, candidate: Option<string>)

  /** `0[1-9]|1[0-2]` */
  predicate IsMonthText(s: string) {
    |s| == 2 && ((s[0] == '0' && '1' <= s[1] <= '9') || (s[0] == '1' && '0' <= s[1] <= '2'))
  }

  predicate GroupsFit(g: Groups) {
    && |g.year| == 4 && AllDigits(g.year) && IsMonthText(g.month) && IsPositiveNumeral(g.pr)
    && (g.candidate.Some? ==> IsPositiveNumeral(g.candidate.value))
  }

  /** The text that TAG_PATTERN describes for given groups. */
  function Spelled(g: Groups): string {
    "v" + g.year + "." + g.month + "." + g.pr + match g.candidate case None => "" case Some(c) => "-rc." + c
  }

  function ParseCandidate(tail: string): Option<Option<string>> {
    if tail == "" then Some(None)
    else if |tail| > 4 && tail[..4] == "-rc." && IsPositiveNumeral(tail[4..]) then Some(Some(tail[4..]))
    else None
  }

  /** `TAG_PATTERN.fullmatch(tag)`, read left to right. */
  function Match(tag: string): Option<Groups> {
    if |tag| < 10 || tag[0] != 'v' || !AllDigits(tag[1..5]) || tag[5] != '.' || !IsMonthText(tag[6..8]) || tag[8] != '.' then None
    else
      var rest := tag[9..];
      var n := LeadingDigits(rest);
      if !IsPositiveNumeral(rest[..n]) then None
      else
        match ParseCandidate(rest[n..])
        case None => None
        case Some(candidate) => Some(Groups(tag[1..5], tag[6..8], rest[..n], candidate))
  }

  /** The parser accepts exactly the spellings of fitting groups, and reads them back: the
      pattern is unambiguous. */
  lemma MatchIsExact(tag: string, g: Groups)
    ensures Match(tag) == Some(g) <==> GroupsFit(g) && tag == Spelled(g)
  {
    if Match(tag) == Some(g) {
      MatchIsSound(tag, g);
    }
    if GroupsFit(g) && tag == Spelled(g) {
      MatchIsComplete(g);
    }
  }

  lemma MatchIsSound(tag: string, g: Groups)
    requires Match(tag) == Some(g)
    ensures GroupsFit(g) && tag == Spelled(g)
  {
    var rest := tag[9..];
    var n := LeadingDigits(rest);
    TailIsSpelled(rest[n..], g.candidate);
    HeadIsSpelled(tag);
    Reassociate("v" + g.year + "." + g.month + ".", rest, n);
  }

  lemma HeadIsSpelled(tag: string)
    requires |tag| >= 9 && tag[0] == 'v' && tag[5] == '.' && tag[8] == '.'
    ensures tag == "v" + tag[1..5] + "." + tag[6..8] + "." + tag[9..]
  {
  }

  lemma Reassociate(head: string, rest: string, n: nat)
    requires n <= |rest|
    ensures head + rest == head + rest[..n] + rest[n..]
  {
  }

  lemma TailIsSpelled(tail: string, candidate: Option<string>)
    requires ParseCandidate(tail) == Some(candidate)
    ensures tail == match candidate case None => "" case Some(c) => "-rc." + c
    ensures candidate.Some? ==> IsPositiveNumeral(candidate.value)
  {
    if candidate.Some? {
      assert tail == tail[..4] + tail[4..];
    }
  }

  lemma MatchIsComplete(g: Groups)
    requires GroupsFit(g)
    ensures Match(Spelled(g)) == Some(g)
  {
    var tag := Spelled(g);
    var tail := match g.candidate case None => "" case Some(c) => "-rc." + c;
    assert tag[1..5] == g.year && tag[6..8] == g.month && tag[5] == '.' && tag[8] == '.';
    assert tag[9..] == g.pr + tail;
    LeadingDigitsOf(g.pr, tail);
    assert (g.pr + tail)[..|g.pr|] == g.pr && (g.pr + tail)[|g.pr|..] == tail;
    if g.candidate.Some? {
      assert tail[..4] == "-rc." && tail[4..] == g.candidate.value;
    }
  }

  lemma {:induction false} LeadingDigitsOf(digits: string, tail: string)
    requires AllDigits(digits) && (tail != [] ==> !IsDigit(tail[0]))
    ensures LeadingDigits(digits + tail) == |digits|
  {
    if digits == [] {
      assert digits + tail == tail;
    } else {
      assert (digits + tail)[1..] == digits[1..] + tail;
      LeadingDigitsOf(digits[1..], tail);
    }
  }

  datatype Identity = Identity(version: string, pythonVersion: string, pullRequest: nat, channel: Channel,
                               candidate: Option<nat>, prerelease: bool, imageTag: string, title: string)

  /** What `from_inputs` derives from the matched groups. */
  function IdentityOf(g: Groups): Identity
    requires GroupsFit(g)
  {
    var pr := Value(g.pr);
    var version := g.year + "." + g.month + "." + Decimal(pr);
    var python := g.year + "." + Decimal(Value(g.month)) + "." + Decimal(pr);
    match g.candidate
    case None => Identity(version, python, pr, Gold, None, false, version, "Maru " + version)
    case Some(c) =>
      var n := Value(c);
      Identity(version, python, pr, Candidate, Some(n), true, version + "-rc." + Decimal(n),
               "Maru " + version + " release candidate " + Decimal(n))
  }

  /** The identity `from_inputs` derives from a tag, if it is admitted. */
  function Identify(tag: string): Option<Identity> {
    match Match(tag)
    case None => None
    case Some(g) =>
      MatchIsExact(tag, g);
      Some(IdentityOf(g))
  }

  function GroupsOf(m: Month, pr: nat, candidate: Option<nat>): Groups {
    Groups(Padded(4, m.year), Padded(2, m.month), Decimal(pr),
           match candidate case None => None case Some(n) => Some(Decimal(n)))
  }

  lemma {:induction false} DecimalWidth(n: nat)
    ensures n <= 9 ==> |Decimal(n)| == 1
    ensures 10 <= n <= 99 ==> |Decimal(n)| == 2
    ensures 100 <= n <= 999 ==> |Decimal(n)| == 3
    ensures 1000 <= n <= 9999 ==> |Decimal(n)| == 4
  {
    if n >= 10 { DecimalWidth(n / 10); }
  }

  lemma MonthText(month: nat)
    requires 1 <= month <= 12
    ensures IsMonthText(Padded(2, month))
  {
    DecimalWidth(month);
    if month >= 10 {
      assert Decimal(month / 10) == ['1'];
    }
  }

  lemma PrintedIsSpelled(m: Month, pr: nat, candidate: Option<nat>)
    ensures "v" + Version(m, pr) + Suffix(candidate) == Spelled(GroupsOf(m, pr, candidate))
  {
  }

  lemma PrintedGroupsFit(m: Month, pr: nat, candidate: Option<nat>)
    requires IsMonth(m) && pr >= 1 && (candidate.Some? ==> candidate.value >= 1)
    ensures GroupsFit(GroupsOf(m, pr, candidate))
  {
    DecimalWidth(m.year);
    ValueOfPadded(4, m.year);
    MonthText(m.month);
  }

  lemma PrintedMatches(pr: int, m: Month, commit: string, channel: Channel, candidate: Option<int>)
    requires IsMonth(m) && Derive(pr, Some(m), commit, channel, candidate).Ok?
    ensures var d := Derive(pr, Some(m), commit, channel, candidate).value;
            && d == Named(d.pullRequest, m, commit, channel, d.candidate)
            && d.pullRequest == pr >= 1 && d.candidate == candidate && (d.channel == Candidate <==> d.candidate.Some?)
            && d.channel != Unsupported
            && GroupsFit(GroupsOf(m, d.pullRequest, d.candidate))
            && Match(d.tag) == Some(GroupsOf(m, d.pullRequest, d.candidate))
  {
    var d := Derive(pr, Some(m), commit, channel, candidate).value;
    PrintedGroupsFit(m, d.pullRequest, d.candidate);
    PrintedIsSpelled(m, d.pullRequest, d.candidate);
    MatchIsExact(d.tag, GroupsOf(m, d.pullRequest, d.candidate));
  }

  /** The identity read from printed groups, field by field. */
  lemma PrintedIdentity(m: Month, pr: nat, candidate: Option<nat>)
    requires GroupsFit(GroupsOf(m, pr, candidate))
    ensures var i := IdentityOf(GroupsOf(m, pr, candidate));
            && i.version == Version(m, pr) && i.pullRequest == pr && i.candidate == candidate
            && i.pythonVersion == Padded(4, m.year) + "." + Decimal(m.month) + "." + Decimal(pr)
            && i.imageTag == Version(m, pr) + Suffix(candidate)
            && i.prerelease == candidate.Some? && i.channel == (if candidate.Some? then Candidate else Gold)
  {
    ValueOfDecimal(pr);
    ValueOfPadded(2, m.month);
    if candidate.Some? {
      ValueOfDecimal(candidate.value);
      assert Version(m, pr) + ("-rc." + Decimal(candidate.value)) == Version(m, pr) + "-rc." + Decimal(candidate.value);
    } else {
      assert Version(m, pr) + "" == Version(m, pr);
    }
  }

  lemma PrintedTitle(m: Month, pr: nat, candidate: Option<nat>, commit: string, channel: Channel)
    requires GroupsFit(GroupsOf(m, pr, candidate))
    ensures IdentityOf(GroupsOf(m, pr, candidate)).title == Named(pr, m, commit, channel, candidate).title
  {
    ValueOfDecimal(pr);
    if candidate.Some? {
      ValueOfDecimal(candidate.value);
      assert "Maru " + Version(m, pr) + (" release candidate " + Decimal(candidate.value))
          == "Maru " + Version(m, pr) + " release candidate " + Decimal(candidate.value);
    } else {
      assert "Maru " + Version(m, pr) + "" == "Maru " + Version(m, pr);
    }
  }

  /** Printing a release and parsing its tag recovers every field the consumer checks; the
      Python version agrees exactly when the year has four digits of its own. */
  lemma TagRoundTrip(pr: int, m: Month, commit: string, channel: Channel, candidate: Option<int>)
    requires IsMonth(m) && Derive(pr, Some(m), commit, channel, candidate).Ok?
    ensures var d := Derive(pr, Some(m), commit, channel, candidate).value;
            && Identify(d.tag).Some?
            && var i := Identify(d.tag).value;
               && i.version == d.version && i.pullRequest == d.pullRequest && i.channel == d.channel
               && i.candidate == d.candidate && i.prerelease == (d.channel == Candidate)
               && i.imageTag == d.imageTag && i.title == d.title
               && (i.pythonVersion == d.pythonVersion <==> m.year >= 1000)
  {
    var d := Derive(pr, Some(m), commit, channel, candidate).value;
    PrintedMatches(pr, m, commit, channel, candidate);
    PrintedIdentity(m, d.pullRequest, d.candidate);
    PrintedTitle(m, d.pullRequest, d.candidate, commit, channel);
    YearText(m.year, m.month, d.pullRequest);
  }

  lemma YearText(year: nat, month: nat, pr: nat)
    requires 1 <= year <= 9999
    ensures Padded(4, year) + "." + Decimal(month) + "." + Decimal(pr) == Decimal(year) + "." + Decimal(month) + "." + Decimal(pr)
            <==> year >= 1000
  {
    DecimalWidth(year);
  }

  /** The numbers of an admitted tag. */
  function MonthOf(g: Groups): Month
    requires GroupsFit(g)
  {
    Month(Value(g.year), Value(g.month))
  }

  function CandidateOf(g: Groups): Option<nat>
    requires GroupsFit(g)
  {
    match g.candidate case None => None case Some(c) => Some(Value(c))
  }

  /** Every tag the consumer admits is the print of its own numbers, so the printer misses
      none of them (a `datetime` has no year 0000). */
  lemma AdmittedTagIsPrinted(tag: string)
    requires Match(tag).Some?
    ensures var g := Match(tag).value;
            && GroupsFit(g)
            && MonthOf(g).year <= 9999 && 1 <= MonthOf(g).month <= 12 && Value(g.pr) >= 1
            && (CandidateOf(g).Some? ==> CandidateOf(g).value >= 1)
            && tag == "v" + Version(MonthOf(g), Value(g.pr)) + Suffix(CandidateOf(g))
  {
    var g := Match(tag).value;
    MatchIsExact(tag, g);
    GroupsOfNumbers(g);
    PrintedIsSpelled(MonthOf(g), Value(g.pr), CandidateOf(g));
    ValuePositive(g.pr);
    FourDigits(g.year);
    TwoDigits(g.month);
    if g.candidate.Some? {
      ValuePositive(g.candidate.value);
    }
  }

  /** The release job prints this tag for these inputs. */
  ghost predicate Prints(tag: string, pr: int, m: Month, commit: string, channel: Channel, candidate: Option<int>) {
    && IsMonth(m) && Derive(pr, Some(m), commit, channel, candidate).Ok?
    && Derive(pr, Some(m), commit, channel, candidate).value.tag == tag
  }

  /** Printer and parser have the same language: a tag is printed for some release if and only
      if the consumer admits it and its year is not 0000, which no merge time has. */
  lemma TagsPrintedAreTagsAdmitted(tag: string)
    ensures (exists pr, m, commit, channel, candidate :: Prints(tag, pr, m, commit, channel, candidate))
            <==> Match(tag).Some? && Match(tag).value.year != "0000"
  {
    if pr, m, commit, channel, candidate :| Prints(tag, pr, m, commit, channel, candidate) {
      PrintedIsAdmitted(tag, pr, m, commit, channel, candidate);
    }
    if Match(tag).Some? && Match(tag).value.year != "0000" {
      AdmittedIsPrinted(tag);
    }
  }

  lemma PrintedIsAdmitted(tag: string, pr: int, m: Month, commit: string, channel: Channel, candidate: Option<int>)
    requires Prints(tag, pr, m, commit, channel, candidate)
    ensures Match(tag).Some? && Match(tag).value.year != "0000"
  {
    PrintedMatches(pr, m, commit, channel, candidate);
    ValueOfPadded(4, m.year);
    ZeroYear();
  }

  lemma AdmittedIsPrinted(tag: string)
    requires Match(tag).Some? && Match(tag).value.year != "0000"
    ensures exists pr, m, commit, channel, candidate :: Prints(tag, pr, m, commit, channel, candidate)
  {
    var g := Match(tag).value;
    AdmittedTagIsPrinted(tag);
    PaddedValue(4, g.year);
    ZeroYear();
    var commit := seq(40, _ => 'a');
    assert IsCommit(commit);
    assert Prints(tag, Value(g.pr), MonthOf(g), commit, if g.candidate.Some? then Candidate else Gold, CandidateOf(g));
  }

  lemma ZeroYear()
    ensures AllDigits("0000") && Value("0000") == 0 && Padded(4, 0) == "0000"
  {
    assert AllDigits("0000");
    PaddedValue(4, "0000");
    assert "0000"[..3] == "000" && "000"[..2] == "00" && "00"[..1] == "0" && "0"[..0] == "";
  }

  lemma GroupsOfNumbers(g: Groups)
    requires GroupsFit(g)
    ensures GroupsOf(MonthOf(g), Value(g.pr), CandidateOf(g)) == g
  {
    PaddedValue(4, g.year);
    PaddedValue(2, g.month);
    DecimalOfValue(g.pr);
    if g.candidate.Some? {
      DecimalOfValue(g.candidate.value);
    }
  }

  lemma FourDigits(s: string)
    requires |s| == 4 && AllDigits(s)
    ensures Value(s) <= 9999
  {
    assert s[..3][..2] == s[..2] && s[..2][..1] == s[..1] && s[..1][..0] == [];
    assert Value(s[..1]) <= 9 && Value(s[..2]) <= 99 && Value(s[..3]) <= 999;
  }

  lemma TwoDigits(s: string)
    requires IsMonthText(s)
    ensures AllDigits(s) && 1 <= Value(s) <= 12
  {
    assert s[..1][..0] == [];
    assert Value(s[..1]) == ValueOf(s[0]);
  }

  /** A numeral of at most `width` digits is the padded print of its value. */
  lemma PaddedValue(width: nat, s: string)
    requires |s| == width >= 1 && AllDigits(s)
    ensures Padded(width, Value(s)) == s
  {
    ValueOfPadded(width, Value(s));
    DecimalNoLonger(s);
    SameWidthSameValue(Padded(width, Value(s)), s);
  }

  lemma {:induction false} DecimalNoLonger(s: string)
    requires s != [] && AllDigits(s)
    ensures |Decimal(Value(s))| <= |s|
  {
    var n := |s| - 1;
    if n == 0 {
      assert s[..0] == [];
    } else {
      DecimalNoLonger(s[..n]);
      assert Value(s) / 10 == Value(s[..n]);
    }
  }

  /** Distinct releases never share a tag. */
  lemma TagsAreInjective(pr: int, m: Month, commit: string, channel: Channel, candidate: Option<int>,
                         pr': int, m': Month, commit': string, channel': Channel, candidate': Option<int>)
    requires IsMonth(m) && Derive(pr, Some(m), commit, channel, candidate).Ok?
    requires IsMonth(m') && Derive(pr', Some(m'), commit', channel', candidate').Ok?
    requires Derive(pr, Some(m), commit, channel, candidate).value.tag == Derive(pr', Some(m'), commit', channel', candidate').value.tag
    ensures pr == pr' && m == m' && channel == channel' && candidate == candidate'
  {
    var d, d' := Derive(pr, Some(m), commit, channel, candidate).value, Derive(pr', Some(m'), commit', channel', candidate').value;
    PrintedMatches(pr, m, commit, channel, candidate);
    PrintedMatches(pr', m', commit', channel', candidate');
    assert GroupsOf(m, d.pullRequest, d.candidate) == GroupsOf(m', d'.pullRequest, d'.candidate);
    ValueOfDecimal(d.pullRequest);
    ValueOfDecimal(d'.pullRequest);
    if d.candidate.Some? {
      ValueOfDecimal(d.candidate.value);
      ValueOfDecimal(d'.candidate.value);
    }
    ValueOfPadded(4, m.year);
    ValueOfPadded(4, m'.year);
    ValueOfPadded(2, m.month);
    ValueOfPadded(2, m'.month);
  }
}
