/** Course certificates: the number the schema's save hook assigns
    (backend/models/certificate.model.js), and the completion gate, the
    get-or-create and the printed strings of `generateCertificate`
    (backend/controllers/certificate.controller.js). The clock's year, the
    random draw and the course-progress records are inputs; the PDF drawing
    is not modelled. */
module Certificates {
  import opened Text
  import opened Http

  datatype CertStatus = Generated | Revoked

  function CertStatusName(s: CertStatus): string
  {
    match s
    case Generated => "generated"
    case Revoked => "revoked"
  }

  function ParseCertStatus(s: string): Option<CertStatus>
  {
    if s == "generated" then Some(Generated) else if s == "revoked" then Some(Revoked) else None
  }

  /** Exactly the two names pass the enum check, each for its own status. */
  lemma CertStatusNames(s: string, st: CertStatus)
    ensures ParseCertStatus(s) == Some(st) <==> s == CertStatusName(st)
  {
  }

  datatype Certificate = Certificate(userId: nat, courseId: nat, completionDate: int, number: string, status: CertStatus)

  type CertStore = seq<Certificate>

  // ---------------------------------------------------------------------
  // Certificate numbers

  /** `Math.floor(Math.random() * 100000)` */
  type Draw = r: nat | r < 100000

  const NumberPrefix: string := "SKILL-"
  const DrawWidth: nat := 5

  /** The number the save hook builds: `SKILL-<year>-<draw>` with the draw
      zero-padded to five digits. */
  function FormatNumber(year: nat, r: Draw): string
  {
    NumberPrefix + NatToDecimal(year) + "-" + PadStart(NatToDecimal(r), DrawWidth, '0')
  }

  function Pow10(k: nat): (p: nat)
    ensures p >= 1
  {
    if k == 0 then 1 else 10 * Pow10(k - 1)
  }

  /** A number below 10^k has at most k digits. */
  lemma {:induction false} DecimalLengthBound(n: nat, k: nat)
    requires 1 <= k && n < Pow10(k)
    ensures |NatToDecimal(n)| <= k
    decreases k
  {
    if n >= 10 {
      assert k >= 2;
      DecimalLengthBound(n / 10, k - 1);
    }
  }

  /** The padded draw has exactly five digits and reads back as the draw. */
  lemma PaddedDraw(r: Draw)
    ensures |PadStart(NatToDecimal(r), DrawWidth, '0')| == DrawWidth
    ensures AllDigits(PadStart(NatToDecimal(r), DrawWidth, '0'))
    ensures DecimalValue(PadStart(NatToDecimal(r), DrawWidth, '0')) == r
  {
    assert Pow10(5) == 100000;
    DecimalLengthBound(r, 5);
    var s := NatToDecimal(r);
    var k :| 0 <= k <= DrawWidth && PadStart(s, DrawWidth, '0') == Repeat('0', k) + s;
    LeadingZeros(k, s);
    DecimalRoundTrip(r);
  }

  /** Reads `SKILL-<year>-<five digits>` back into the year and the draw. */
  function ParseNumber(s: string): Option<(nat, nat)>
  {
    if |s| >= |NumberPrefix| + 1 + 1 + DrawWidth && s[..|NumberPrefix|] == NumberPrefix
       && s[|s| - DrawWidth - 1] == '-'
       && AllDigits(s[|NumberPrefix|..|s| - DrawWidth - 1]) && AllDigits(s[|s| - DrawWidth..])
    then Some((DecimalValue(s[|NumberPrefix|..|s| - DrawWidth - 1]), DecimalValue(s[|s| - DrawWidth..])))
    else None
  }

  /** A generated number determines its year and draw. */
  lemma NumberRoundTrip(year: nat, r: Draw)
    ensures ParseNumber(FormatNumber(year, r)) == Some((year, r))
  {
    var y := NatToDecimal(year);
    var d := PadStart(NatToDecimal(r), DrawWidth, '0');
    PaddedDraw(r);
    DecimalRoundTrip(year);
    var s := FormatNumber(year, r);
    assert s == NumberPrefix + y + "-" + d;
    assert s[..|NumberPrefix|] == NumberPrefix;
    assert s[|NumberPrefix|..|s| - DrawWidth - 1] == y;
    assert s[|s| - DrawWidth..] == d;
    assert s[|s| - DrawWidth - 1] == '-';
  }

  /** Distinct years or draws give distinct numbers. */
  lemma NumbersDistinct(y1: nat, r1: Draw, y2: nat, r2: Draw)
    requires (y1, r1) != (y2, r2)
    ensures FormatNumber(y1, r1) != FormatNumber(y2, r2)
  {
    NumberRoundTrip(y1, r1);
    NumberRoundTrip(y2, r2);
  }

  /** The save hook: a number is assigned only when there is none. */
  function AssignNumber(number: string, year: nat, r: Draw): (n: string)
    ensures n != []
    ensures number != [] ==> n == number
    ensures number == [] ==> ParseNumber(n) == Some((year, r))
  {
    NumberRoundTrip(year, r);
    if number == [] then FormatNumber(year, r) else number
  }

  // ---------------------------------------------------------------------
  // generateCertificate

  /** A course-progress record with its populated course title. */
  datatype Progress = Progress(userId: nat, courseId: nat, completed: bool, courseTitle: string)

  predicate CompletedBy(p: Progress, userId: nat, courseId: nat)
  {
    p.userId == userId && p.courseId == courseId && p.completed
  }

  function FindCompleted(progress: seq<Progress>, userId: nat, courseId: nat): (r: Option<nat>)
    ensures r.Some? ==> r.value < |progress| && CompletedBy(progress[r.value], userId, courseId)
    ensures r.None? <==> forall k :: 0 <= k < |progress| ==> !CompletedBy(progress[k], userId, courseId)
  {
    if progress == [] then None
    else if CompletedBy(progress[0], userId, courseId) then Some(0)
    else match FindCompleted(progress[1..], userId, courseId)
      case None => None
      case Some(k) => Some(k + 1)
  }

  predicate IssuedTo(c: Certificate, userId: nat, courseId: nat)
  {
    c.userId == userId && c.courseId == courseId
  }

  /** `Certificate.findOne({ userId, courseId })` */
  function FindCertificate(certs: CertStore, userId: nat, courseId: nat): (r: Option<nat>)
    ensures r.Some? ==> r.value < |certs| && IssuedTo(certs[r.value], userId, courseId)
    ensures r.None? <==> forall k :: 0 <= k < |certs| ==> !IssuedTo(certs[k], userId, courseId)
  {
    if certs == [] then None
    else if IssuedTo(certs[0], userId, courseId) then Some(0)
    else match FindCertificate(certs[1..], userId, courseId)
      case None => None
      case Some(k) => Some(k + 1)
  }

  /** Some stored certificate already has that number (the unique index). */
  predicate NumberTaken(certs: CertStore, number: string)
  {
    exists k :: 0 <= k < |certs| && certs[k].number == number
  }

  const NotCompletedMessage: string := "Course not completed yet"
  const GenerateFailedMessage: string := "Failed to generate certificate"
  const DefaultCourseTitle: string := "Web Development"

  /** The strings of the download: the attachment's file name, the number
      line and the course title as printed. */
  datatype Download = Download(filename: string, numberLine: string, courseTitle: string)

  function Filename(number: string): string
  {
    "certificate-" + number + ".pdf"
  }

  const NumberLabel: string := "Certificate Number: "

  /** The download name reads back as the certificate number it was made
      from. */
  lemma FilenameReadsBack(number: string)
    ensures var f := Filename(number);
      && f[..|"certificate-"|] == "certificate-"
      && f[|f| - |".pdf"|..] == ".pdf"
      && f[|"certificate-"|..|f| - |".pdf"|] == number
  {
  }

  /** The number line as written: a second `SKILL-` in front of a number
      that already starts with one. */
  function NumberLineAsWritten(number: string): string
  {
    NumberLabel + NumberPrefix + number
  }

  /** The number line with the stored number printed once. */
  function NumberLine(number: string): string
  {
    NumberLabel + number
  }

  /** `courseTitle || 'Web Development'` */
  function PrintedTitle(title: string): (t: string)
    ensures t != []
    ensures title != [] ==> t == title
  {
    if title == [] then DefaultCourseTitle else title
  }

  /** The corrected line shows the stored number, which reads back as the
      year and draw it was made from. */
  lemma NumberLineReadsBack(year: nat, r: Draw)
    ensures var line := NumberLine(FormatNumber(year, r));
      line[..|NumberLabel|] == NumberLabel
      && line[|NumberLabel|..] == FormatNumber(year, r)
      && ParseNumber(line[|NumberLabel|..]) == Some((year, r))
  {
    NumberRoundTrip(year, r);
  }

  /** As written, the printed number of a generated certificate starts with
      `SKILL-SKILL-`, so it is not the stored number. */
  lemma NumberLineDoublesPrefix(year: nat, r: Draw)
    ensures var line := NumberLineAsWritten(FormatNumber(year, r));
      && line[..|NumberLabel|] == NumberLabel
      && line[|NumberLabel|..] == NumberPrefix + FormatNumber(year, r)
      && line[|NumberLabel|..][..2 * |NumberPrefix|] == NumberPrefix + NumberPrefix
      && line[|NumberLabel|..] != FormatNumber(year, r)
  {
    var f := FormatNumber(year, r);
    var line := NumberLineAsWritten(f);
    var t := NumberPrefix + f;
    assert line == NumberLabel + t;
    assert f[..|NumberPrefix|] == NumberPrefix;
    assert t[..2 * |NumberPrefix|] == NumberPrefix + f[..|NumberPrefix|];
    assert |t| != |f|;
  }

  function MakeDownload(number: string, title: string): Download
  {
    Download(Filename(number), NumberLine(number), PrintedTitle(title))
  }

  /** The download prints the stored number once after the label, so the
      line differs from the one as written, which repeats the prefix. */
  lemma MakeDownloadPrintsNumber(number: string, title: string)
    ensures var d := MakeDownload(number, title);
      && d.numberLine[..|NumberLabel|] == NumberLabel
      && d.numberLine[|NumberLabel|..] == number
      && d.numberLine != NumberLineAsWritten(number)
      && |NumberLineAsWritten(number)| == |d.numberLine| + |NumberPrefix|
  {
  }

  datatype GenerateResult = GenerateResult(certs: CertStore, reply: Reply, download: Option<Download>)

  /** `generateCertificate` for the signed-in user and a course, with the
      year of the clock, the random draw and the time for the completion
      date. A number clash with the unique index fails the request. The
      successful reply is the PDF itself, so it carries no message. */
  function Generate(progress: seq<Progress>, certs: CertStore, userId: nat, courseId: nat,
                    year: nat, r: Draw, now: int): GenerateResult
  {
    match FindCompleted(progress, userId, courseId)
    case None => GenerateResult(certs, Fail(400, NotCompletedMessage), None)
    case Some(p) =>
      var title := progress[p].courseTitle;
      match FindCertificate(certs, userId, courseId)
      case Some(k) => GenerateResult(certs, Ok(200, ""), Some(MakeDownload(certs[k].number, title)))
      case None =>
        var number := AssignNumber("", year, r);
        if NumberTaken(certs, number) then GenerateResult(certs, Fail(500, GenerateFailedMessage), None)
        else
          var c := Certificate(userId, courseId, now, number, Generated);
          GenerateResult(certs + [c], Ok(200, ""), Some(MakeDownload(number, title)))
  }

  /** Without a completed course nothing is created and the request fails
      with 400. */
  lemma GenerateRequiresCompletion(progress: seq<Progress>, certs: CertStore, userId: nat, courseId: nat,
                                   year: nat, r: Draw, now: int)
    requires forall k :: 0 <= k < |progress| ==> !CompletedBy(progress[k], userId, courseId)
    ensures Generate(progress, certs, userId, courseId, year, r, now)
      == GenerateResult(certs, Fail(400, NotCompletedMessage), None)
  {
  }

  /** An existing certificate for the pair is reused: nothing is created
      and its number is printed. Otherwise at most one certificate, for
      that pair, with a fresh number, is appended. */
  lemma GenerateGetOrCreate(progress: seq<Progress>, certs: CertStore, userId: nat, courseId: nat,
                            year: nat, r: Draw, now: int)
    ensures var g := Generate(progress, certs, userId, courseId, year, r, now);
      && (FindCertificate(certs, userId, courseId).Some? ==> g.certs == certs)
      && (g.certs != certs ==>
            && FindCertificate(certs, userId, courseId).None?
            && |g.certs| == |certs| + 1 && g.certs[..|certs|] == certs
            && IssuedTo(g.certs[|certs|], userId, courseId)
            && g.certs[|certs|].number == FormatNumber(year, r)
            && g.certs[|certs|].status == Generated
            && !NumberTaken(certs, g.certs[|certs|].number))
      && (g.download.Some? ==>
            exists k :: 0 <= k < |g.certs| && IssuedTo(g.certs[k], userId, courseId)
              && g.download.value == MakeDownload(g.certs[k].number, progress[FindCompleted(progress, userId, courseId).value].courseTitle))
  {
    var g := Generate(progress, certs, userId, courseId, year, r, now);
    if g.download.Some? {
      match FindCertificate(certs, userId, courseId)
      case Some(k) =>
      case None =>
        assert IssuedTo(g.certs[|certs|], userId, courseId);
    }
    if g.certs != certs {
      assert g.certs[..|certs|] == certs;
    }
  }

  /** A completed course is served: the reply is 200 with a download exactly
      when the pair has completed progress and either already holds a
      certificate or draws a number not yet taken, and a pair without a
      certificate then gets one appended. A drawn number that clashes with
      the unique index fails with 500 and changes nothing. */
  lemma GenerateServesCompleted(progress: seq<Progress>, certs: CertStore, userId: nat, courseId: nat,
                                year: nat, r: Draw, now: int)
    ensures var g := Generate(progress, certs, userId, courseId, year, r, now);
      var completed := FindCompleted(progress, userId, courseId).Some?;
      var held := FindCertificate(certs, userId, courseId).Some?;
      && (g.reply == Ok(200, "") <==> completed && (held || !NumberTaken(certs, FormatNumber(year, r))))
      && (g.download.Some? <==> g.reply == Ok(200, ""))
      && (completed && !held && !NumberTaken(certs, FormatNumber(year, r)) ==> |g.certs| == |certs| + 1)
      && (completed && !held && NumberTaken(certs, FormatNumber(year, r)) ==>
            g == GenerateResult(certs, Fail(500, GenerateFailedMessage), None))
  {
  }

  /** A certificate appended for a pair that had none is the one found. */
  lemma FindCertificateAppended(certs: CertStore, c: Certificate)
    requires forall k :: 0 <= k < |certs| ==> !IssuedTo(certs[k], c.userId, c.courseId)
    ensures FindCertificate(certs + [c], c.userId, c.courseId) == Some(|certs|)
  {
    var s := certs + [c];
    assert IssuedTo(s[|certs|], c.userId, c.courseId);
    assert forall k :: 0 <= k < |certs| ==> s[k] == certs[k];
  }

  /** Asking again for the same pair, whatever the new draw, gives the same
      certificate number and creates nothing more. */
  lemma GenerateIdempotent(progress: seq<Progress>, certs: CertStore, userId: nat, courseId: nat,
                           year: nat, r: Draw, now: int, year2: nat, r2: Draw, now2: int)
    ensures var g := Generate(progress, certs, userId, courseId, year, r, now);
      var g2 := Generate(progress, g.certs, userId, courseId, year2, r2, now2);
      g.download.Some? ==> g2.certs == g.certs && g2.download == g.download
  {
    var g := Generate(progress, certs, userId, courseId, year, r, now);
    if g.download.Some? {
      GenerateGetOrCreate(progress, certs, userId, courseId, year, r, now);
      match FindCertificate(certs, userId, courseId)
      case Some(k) =>
      case None =>
        var c := g.certs[|certs|];
        assert g.certs == certs + [c] by {
          assert g.certs[..|certs|] == certs;
        }
        FindCertificateAppended(certs, c);
    }
  }

  /** At most one certificate per user and course. */
  ghost predicate OnePerPair(certs: CertStore)
  {
    forall i, j :: 0 <= i < j < |certs| ==>
      !(certs[i].userId == certs[j].userId && certs[i].courseId == certs[j].courseId)
  }

  /** No two certificates share a number. */
  ghost predicate NumbersUnique(certs: CertStore)
  {
    forall i, j :: 0 <= i < j < |certs| ==> certs[i].number != certs[j].number
  }

  /** Appending a certificate for a new pair under a new number keeps both
      invariants. */
  lemma AppendKeepsInvariants(certs: CertStore, c: Certificate)
    requires OnePerPair(certs) && NumbersUnique(certs)
    requires forall k :: 0 <= k < |certs| ==> !IssuedTo(certs[k], c.userId, c.courseId)
    requires !NumberTaken(certs, c.number)
    ensures OnePerPair(certs + [c]) && NumbersUnique(certs + [c])
  {
    var s := certs + [c];
    forall i, j | 0 <= i < j < |s|
      ensures !(s[i].userId == s[j].userId && s[i].courseId == s[j].courseId)
      ensures s[i].number != s[j].number
    {
      assert s[i] == certs[i];
      if j < |certs| { assert s[j] == certs[j]; }
    }
  }

  /** Generation keeps one certificate per pair and unique numbers. */
  lemma GenerateKeepsInvariants(progress: seq<Progress>, certs: CertStore, userId: nat, courseId: nat,
                                year: nat, r: Draw, now: int)
    requires OnePerPair(certs) && NumbersUnique(certs)
    ensures var g := Generate(progress, certs, userId, courseId, year, r, now);
      OnePerPair(g.certs) && NumbersUnique(g.certs)
  {
    var g := Generate(progress, certs, userId, courseId, year, r, now);
    GenerateGetOrCreate(progress, certs, userId, courseId, year, r, now);
    if g.certs != certs {
      var c := g.certs[|certs|];
      assert g.certs == certs + [c] by {
        assert g.certs[..|certs|] == certs;
      }
      AppendKeepsInvariants(certs, c);
    }
  }
}
