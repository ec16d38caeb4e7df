/** The assignment upload route (server/routes.ts): which files the upload
    middleware lets through, the name it stores an accepted file under, and the
    reply of the `/api/submit-assignment` handler. The clock and the random
    source are parameters. */
module Upload {
  import opened Wrappers
  import opened Decimal

  /** The multipart field `upload.single` reads the file from. */
  const UploadField: string := "assignment"
  /** `limits.fileSize`: 10 MiB. */
  const MaxFileSize: nat := 10 * 1024 * 1024
  const AcceptedExtension: string := ".docx"

  const FilterMessage: string := "Only .docx files are allowed"
  const NoFileMessage: string := "No file uploaded"
  const SuccessMessage: string := "Assignment submitted successfully"

  // ---------------------------------------------------------------------------
  // Node's path.extname, for POSIX paths

  /** The position of the last `c` in `s`. */
  function LastIndexOf(s: string, c: char): (r: Option<nat>)
    ensures r.None? <==> c !in s
    ensures r.Some? ==> r.value < |s| && s[r.value] == c && c !in s[r.value + 1..]
    decreases |s|
  {
    if s == [] then None
    else if s[|s| - 1] == c then Some(|s| - 1)
    else LastIndexOf(s[..|s| - 1], c)
  }

  /** `p` without its trailing slashes. */
  function TrimTrailingSlashes(p: string): (t: string)
    ensures t <= p
    ensures t == [] || t[|t| - 1] != '/'
    ensures forall i :: |t| <= i < |p| ==> p[i] == '/'
    decreases |p|
  {
    if p != [] && p[|p| - 1] == '/' then TrimTrailingSlashes(p[..|p| - 1]) else p
  }

  /** The last segment of `p`: what follows the last slash once trailing slashes are gone. */
  function Basename(p: string): (b: string)
    ensures '/' !in b
    ensures |b| <= |TrimTrailingSlashes(p)|
    ensures TrimTrailingSlashes(p)[|TrimTrailingSlashes(p)| - |b|..] == b
  {
    var t := TrimTrailingSlashes(p);
    match LastIndexOf(t, '/')
    case None => t
    case Some(i) => t[i + 1..]
  }

  /** `path.extname(p)`: the basename from its last dot on; empty when the
      basename has no dot, when its only dot is its first character, and for `..`. */
  function Extname(p: string): (ext: string)
    ensures ext == "" || (ext[0] == '.' && '.' !in ext[1..] && '/' !in ext)
    ensures |ext| <= |Basename(p)| && Basename(p)[|Basename(p)| - |ext|..] == ext
    ensures ext == "" <==>
      || '.' !in Basename(p)
      || (Basename(p)[0] == '.' && '.' !in Basename(p)[1..])
      || Basename(p) == ".."
  {
    var b := Basename(p);
    match LastIndexOf(b, '.')
    case None => ""
    case Some(d) => if d == 0 || b == ".." then "" else b[d..]
  }

  /** The extension of a last segment `stem + ext` is `ext`, whenever `ext` is a
      dot followed by no dot and the stem is not empty. */
  lemma ExtnameOfJoin(stem: string, ext: string)
    requires stem != [] && '/' !in stem
    requires |ext| > 0 && ext[0] == '.' && '.' !in ext[1..] && '/' !in ext
    requires stem + ext != ".."
    ensures Extname(stem + ext) == ext
  {
    var p := stem + ext;
    assert p[|p| - 1] == ext[|ext| - 1];
    assert TrimTrailingSlashes(p) == p;
    assert '/' !in p by {
      forall i | 0 <= i < |p| ensures p[i] != '/' {
        if i < |stem| { assert p[i] == stem[i]; } else { assert p[i] == ext[i - |stem|]; }
      }
    }
    assert Basename(p) == p;
    var d := LastIndexOf(p, '.');
    assert p[|stem|] == '.';
    assert d.Some?;
    assert d.value == |stem|;
    assert p[d.value..] == ext;
  }

  // ---------------------------------------------------------------------------
  // The file filter

  function LowerChar(c: char): char
  {
    if 'A' <= c <= 'Z' then (c as int + 32) as char else c
  }

  /** `toLowerCase()`, on the ASCII letters. */
  function ToLower(s: string): string
  {
    seq(|s|, i requires 0 <= i < |s| => LowerChar(s[i]))
  }

  /** The `fileFilter` test: the extension, lower-cased, is `.docx`. */
  predicate AcceptsFile(originalname: string)
  {
    ToLower(Extname(originalname)) == AcceptedExtension
  }

  /** A string lower-cases to `.docx` exactly when it spells `.docx` in any mix of cases. */
  lemma LowerIsDocx(e: string)
    ensures ToLower(e) == AcceptedExtension <==>
      && |e| == 5 && e[0] == '.'
      && (e[1] == 'd' || e[1] == 'D') && (e[2] == 'o' || e[2] == 'O')
      && (e[3] == 'c' || e[3] == 'C') && (e[4] == 'x' || e[4] == 'X')
  {
    if ToLower(e) == AcceptedExtension {
      assert |ToLower(e)| == 5;
      assert ToLower(e)[0] == '.' && ToLower(e)[1] == 'd' && ToLower(e)[2] == 'o';
      assert ToLower(e)[3] == 'c' && ToLower(e)[4] == 'x';
    }
  }

  /** A file is accepted exactly when its extension spells `.docx` in any mix of cases. */
  lemma AcceptsFileIff(originalname: string)
    ensures AcceptsFile(originalname) <==>
      var e := Extname(originalname);
      && |e| == 5 && e[0] == '.'
      && (e[1] == 'd' || e[1] == 'D') && (e[2] == 'o' || e[2] == 'O')
      && (e[3] == 'c' || e[3] == 'C') && (e[4] == 'x' || e[4] == 'X')
  {
    LowerIsDocx(Extname(originalname));
  }

  /** The extension test ignores letter case. */
  lemma UpperCaseAccepted()
    ensures AcceptsFile("x.DOCX")
  {
    var stem, ext := "x", ".DOCX";
    assert '.' !in ext[1..];
    assert stem + ext == "x.DOCX";
    AcceptedSpelling(stem, ext);
    LowerIsDocx(ext);
  }

  /** Other extensions are rejected. */
  lemma PdfRejected()
    ensures !AcceptsFile("report.pdf")
  {
    var stem, ext := "report", ".pdf";
    assert '/' !in stem;
    assert '.' !in ext[1..];
    assert stem + ext == "report.pdf";
    AcceptedSpelling(stem, ext);
    assert |ToLower(ext)| == 4;
  }

  /** Only the last extension counts: `x.docx.pdf` is rejected. */
  lemma DocxNotLastRejected()
    ensures !AcceptsFile("x.docx.pdf")
  {
    var stem, ext := "x.docx", ".pdf";
    assert '/' !in stem;
    assert '.' !in ext[1..];
    assert stem + ext == "x.docx.pdf";
    AcceptedSpelling(stem, ext);
    assert |ToLower(ext)| == 4;
  }

  lemma AcceptedSpelling(stem: string, ext: string)
    requires stem != [] && '/' !in stem
    requires |ext| > 0 && ext[0] == '.' && '.' !in ext[1..] && '/' !in ext
    requires stem + ext != ".."
    ensures AcceptsFile(stem + ext) <==> ToLower(ext) == AcceptedExtension
  {
    ExtnameOfJoin(stem, ext);
  }

  /** A name whose only dot is its first character has no extension, so a file
      called just `.docx` is rejected. */
  lemma LeadingDotExamples()
    ensures Extname(".docx") == ""
    ensures !AcceptsFile(".docx")
  {
    var p := ".docx";
    assert p[|p| - 1] != '/';
    assert TrimTrailingSlashes(p) == p;
    assert '/' !in p;
    assert Basename(p) == p;
    assert p[0] == '.' && '.' !in p[1..];
  }

  /** A trailing dot is an extension of its own. */
  lemma TrailingDotExample()
    ensures Extname("name.") == "."
  {
    var stem, ext := "name", ".";
    assert '/' !in stem;
    assert stem + ext == "name.";
    ExtnameOfJoin(stem, ext);
  }

  // ---------------------------------------------------------------------------
  // The stored file name

  /** `fieldname + '-' + Date.now() + '-' + Math.round(Math.random() * 1E9) + path.extname(originalname)`,
      with the clock reading and the rounded random number as parameters. */
  function StoredName(fieldname: string, now: nat, random: nat, originalname: string): string
  {
    fieldname + "-" + NatToString(now) + "-" + NatToString(random) + Extname(originalname)
  }

  lemma DashAfter(a: string, b: string)
    ensures |a + "-" + b| > |a| && (a + "-" + b)[|a|] == '-'
  {
  }

  lemma DashSplit(a: string, b: string, c: string, d: string)
    requires AllDigits(a) && AllDigits(c)
    requires a + "-" + b == c + "-" + d
    ensures a == c && b == d
  {
    var x := a + "-" + b;
    if |a| < |c| {
      DashAfter(a, b);
      assert false;
    } else if |c| < |a| {
      DashAfter(c, d);
      assert false;
    }
    assert a == x[..|a|] == c;
    assert b == x[|a| + 1..] == d;
  }

  /** The stored name is the field name and a dash, then the two numbers
      joined by a dash, then the extension. */
  lemma StoredNameParts(fieldname: string, now: nat, random: nat, originalname: string)
    ensures StoredName(fieldname, now, random, originalname) ==
      (fieldname + "-") + (NatToString(now) + "-" + NatToString(random)) + Extname(originalname)
  {
    Regroup(fieldname, NatToString(now), NatToString(random), Extname(originalname));
  }

  lemma Regroup(f: string, a: string, b: string, e: string)
    ensures f + "-" + a + "-" + b + e == (f + "-") + (a + "-" + b) + e
  {
  }

  lemma StripAffixes(prefix: string, m1: string, m2: string, suffix: string)
    requires prefix + m1 + suffix == prefix + m2 + suffix
    ensures m1 == m2
  {
    var n := prefix + m1 + suffix;
    assert |m1| == |m2|;
    assert m1 == n[|prefix|..|prefix| + |m1|];
  }

  /** Two uploads of the same file that differ in clock reading or random number
      are stored under different names. */
  lemma StoredNamesDistinct(fieldname: string, originalname: string, now1: nat, random1: nat, now2: nat, random2: nat)
    requires (now1, random1) != (now2, random2)
    ensures StoredName(fieldname, now1, random1, originalname) != StoredName(fieldname, now2, random2, originalname)
  {
    StoredNameParts(fieldname, now1, random1, originalname);
    StoredNameParts(fieldname, now2, random2, originalname);
    if StoredName(fieldname, now1, random1, originalname) == StoredName(fieldname, now2, random2, originalname) {
      StripAffixes(fieldname + "-", NatToString(now1) + "-" + NatToString(random1),
        NatToString(now2) + "-" + NatToString(random2), Extname(originalname));
      DashSplit(NatToString(now1), NatToString(random1), NatToString(now2), NatToString(random2));
      NatToStringInjective(now1, now2);
      NatToStringInjective(random1, random2);
    }
  }

  /** A last segment without any dot has no extension. */
  lemma ExtnameWithoutDot(p: string)
    requires p != [] && '.' !in p && '/' !in p
    ensures Extname(p) == ""
  {
    assert p[|p| - 1] != '/';
    assert TrimTrailingSlashes(p) == p;
    assert Basename(p) == p;
  }

  lemma PlainStem(fieldname: string, a: string, b: string)
    requires '.' !in fieldname && '/' !in fieldname && AllDigits(a) && AllDigits(b)
    ensures var stem := fieldname + "-" + a + "-" + b;
      stem != [] && '.' !in stem && '/' !in stem && stem[|fieldname|] == '-'
  {
    var stem := fieldname + "-" + a + "-" + b;
    forall i | 0 <= i < |stem|
      ensures stem[i] != '.' && stem[i] != '/'
    {
      if i < |fieldname| {
        assert stem[i] == fieldname[i];
      } else if i == |fieldname| || i == |fieldname| + 1 + |a| {
        assert stem[i] == '-';
      } else if i < |fieldname| + 1 + |a| {
        assert stem[i] == a[i - |fieldname| - 1];
      } else {
        assert stem[i] == b[i - |fieldname| - 2 - |a|];
      }
    }
  }

  /** The stored name has the original's extension, letter case included, as long
      as the field name has no dot and no slash. */
  lemma StoredNameKeepsExtension(fieldname: string, now: nat, random: nat, originalname: string)
    requires '.' !in fieldname && '/' !in fieldname
    ensures Extname(StoredName(fieldname, now, random, originalname)) == Extname(originalname)
  {
    var ext := Extname(originalname);
    var stem := fieldname + "-" + NatToString(now) + "-" + NatToString(random);
    PlainStem(fieldname, NatToString(now), NatToString(random));
    assert StoredName(fieldname, now, random, originalname) == stem + ext;
    if ext == "" {
      assert stem + ext == stem;
      ExtnameWithoutDot(stem);
    } else {
      assert stem != "..";
      ExtnameOfJoin(stem, ext);
    }
  }

  // ---------------------------------------------------------------------------
  // The submission route

  /** The file part of the multipart request, as the upload middleware sees it. */
  datatype FilePart = FilePart(fieldname: string, originalname: string, size: nat)

  /** Errors the upload middleware hands to the application's error handling
      instead of calling the route handler. */
  datatype UploadError =
    | UnexpectedField(field: string)
    | FilterRejected(message: string)
    | FileTooLarge(field: string)

  datatype Outcome =
    | Reply(status: nat, message: string, filename: Option<string>)
    | PassedToErrorHandler(error: UploadError)

  /** `POST /api/submit-assignment` behind `upload.single('assignment')`. */
  function SubmitAssignment(file: Option<FilePart>, now: nat, random: nat): Outcome
  {
    match file
    case None => Reply(400, NoFileMessage, None)
    case Some(f) =>
      if f.originalname == "" then Reply(400, NoFileMessage, None)
      else if f.fieldname != UploadField then PassedToErrorHandler(UnexpectedField(f.fieldname))
      else if !AcceptsFile(f.originalname) then PassedToErrorHandler(FilterRejected(FilterMessage))
      else if f.size > MaxFileSize then PassedToErrorHandler(FileTooLarge(f.fieldname))
      else Reply(200, SuccessMessage, Some(StoredName(f.fieldname, now, random, f.originalname)))
  }

  /** The size cap is 10 * 1024 * 1024 bytes. */
  lemma MaxFileSizeIsTenMiB()
    ensures MaxFileSize == 10485760
  {
  }

  /** A request without a file is answered 400 with `No file uploaded`. */
  lemma NoFileIsBadRequest(now: nat, random: nat)
    ensures SubmitAssignment(None, now, random) == Reply(400, NoFileMessage, None)
  {
  }

  /** The handler answers 200 exactly for a named `.docx` file in the `assignment`
      field within the size cap. */
  lemma SubmitSucceedsIff(file: Option<FilePart>, now: nat, random: nat)
    ensures var out := SubmitAssignment(file, now, random);
      out.Reply? && out.status == 200 <==>
        && file.Some?
        && file.value.originalname != ""
        && file.value.fieldname == UploadField
        && AcceptsFile(file.value.originalname)
        && file.value.size <= MaxFileSize
  {
    if file.Some? {
      var f := file.value;
      if f.originalname != "" && f.fieldname == UploadField && AcceptsFile(f.originalname) && f.size <= MaxFileSize {
        assert SubmitAssignment(file, now, random) ==
          Reply(200, SuccessMessage, Some(StoredName(f.fieldname, now, random, f.originalname)));
      }
    }
  }

  /** A 200 reply carries the success message and the stored name, and the
      stored name passes the same `.docx` test as the original. */
  lemma SuccessReply(file: FilePart, now: nat, random: nat)
    requires SubmitAssignment(Some(file), now, random).Reply?
    requires SubmitAssignment(Some(file), now, random).status == 200
    ensures SubmitAssignment(Some(file), now, random) ==
      Reply(200, SuccessMessage, Some(StoredName(UploadField, now, random, file.originalname)))
    ensures AcceptsFile(StoredName(UploadField, now, random, file.originalname))
  {
    SubmitSucceedsIff(Some(file), now, random);
    assert AcceptsFile(file.originalname);
    UploadFieldIsPlain();
    StoredNameKeepsExtension(UploadField, now, random, file.originalname);
  }

  lemma UploadFieldIsPlain()
    ensures '.' !in UploadField && '/' !in UploadField
  {
  }

  /** A `.pdf` upload never reaches the handler: the filter rejects it. */
  lemma PdfIsRejected(size: nat, now: nat, random: nat)
    ensures SubmitAssignment(Some(FilePart(UploadField, "report.pdf", size)), now, random) ==
      PassedToErrorHandler(FilterRejected(FilterMessage))
  {
    PdfRejected();
  }
}
