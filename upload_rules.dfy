/**
 * The pure rules of the upload endpoint: the name under which an uploaded
 * file is stored (the upload time in milliseconds, a dash, and the original
 * name with every run of white space turned into one dash), the defaults of
 * the `tags` and `element` form fields, and the record kept for the upload.
 */
module UploadRules {
  import opened Wrappers
  import opened Text

  // ---------------------------------------------------------------------
  // originalname.replace(/\s+/g, '-')
  // ---------------------------------------------------------------------

  /** Every maximal run of white space replaced by a single `-`. */
  function Sanitize(s: string): (r: string)
    ensures |r| <= |s|
    decreases |s|
  {
    if s == [] then []
    else if IsSpace(s[0]) then
      var rest := TrimStart(s[1..]);
      "-" + Sanitize(rest)
    else [s[0]] + Sanitize(s[1..])
  }

  /** The sanitised name holds no white space. */
  lemma {:induction false} SanitizeNoSpace(s: string)
    ensures NoSpace(Sanitize(s))
    decreases |s|
  {
    if s == [] {
    } else if IsSpace(s[0]) {
      SanitizeNoSpace(TrimStart(s[1..]));
      assert Sanitize(s) == "-" + Sanitize(TrimStart(s[1..]));
    } else {
      SanitizeNoSpace(s[1..]);
      assert Sanitize(s) == [s[0]] + Sanitize(s[1..]);
    }
  }

  /** A name without white space is kept as it is. */
  lemma {:induction false} SanitizeKeeps(s: string)
    requires NoSpace(s)
    ensures Sanitize(s) == s
    decreases |s|
  {
    if s != [] {
      assert NoSpace(s[1..]) by {
        forall i | 0 <= i < |s| - 1 ensures !IsSpace(s[1..][i]) {
          assert s[1..][i] == s[i + 1];
        }
      }
      SanitizeKeeps(s[1..]);
      assert s == [s[0]] + s[1..];
    }
  }

  /** Sanitising twice is sanitising once. */
  lemma SanitizeIdempotent(s: string)
    ensures Sanitize(Sanitize(s)) == Sanitize(s)
  {
    SanitizeNoSpace(s);
    SanitizeKeeps(Sanitize(s));
  }

  /** Characters outside white space are copied one for one. */
  lemma {:induction false} SanitizeCopies(a: string, s: string)
    requires NoSpace(a)
    ensures Sanitize(a + s) == a + Sanitize(s)
    decreases |a|
  {
    if a != [] {
      assert (a + s)[0] == a[0] && (a + s)[1..] == a[1..] + s;
      assert NoSpace(a[1..]) by {
        forall i | 0 <= i < |a| - 1 ensures !IsSpace(a[1..][i]) {
          assert a[1..][i] == a[i + 1];
        }
      }
      SanitizeCopies(a[1..], s);
      assert a == [a[0]] + a[1..];
    } else {
      assert a + s == s;
    }
  }

  /** A whole run of white space `w`, up to the next non-space, becomes one `-`. */
  lemma SanitizeRun(w: string, b: string)
    requires w != [] && AllSpace(w)
    requires b == [] || !IsSpace(b[0])
    ensures Sanitize(w + b) == "-" + Sanitize(b)
  {
    assert (w + b)[0] == w[0];
    assert (w + b)[1..] == w[1..] + b;
    TrimStartSkips(w[1..], b);
  }

  lemma {:induction false} TrimStartSkips(w: string, b: string)
    requires AllSpace(w)
    requires b == [] || !IsSpace(b[0])
    ensures TrimStart(w + b) == b
    decreases |w|
  {
    if w == [] {
      assert w + b == b;
    } else {
      assert (w + b)[0] == w[0];
      assert (w + b)[1..] == w[1..] + b;
      TrimStartSkips(w[1..], b);
    }
  }

  // ---------------------------------------------------------------------
  // Date.now() + '-' + ...
  // ---------------------------------------------------------------------

  predicate IsDigit(c: char) {
    '0' <= c <= '9'
  }

  predicate AllDigits(s: string) {
    forall i :: 0 <= i < |s| ==> IsDigit(s[i])
  }

  function DigitChar(d: nat): (c: char)
    requires d < 10
    ensures IsDigit(c)
  {
    ('0' as int + d) as char
  }

  function DigitValue(c: char): (d: nat)
    requires IsDigit(c)
    ensures d < 10
  {
    c as int - '0' as int
  }

  /** The decimal form of a whole number, as `String(n)` writes it (no leading zeros). */
  function Decimal(n: nat): (s: string)
    ensures s != [] && AllDigits(s)
    ensures s[0] == '0' ==> n == 0
    decreases n
  {
    if n < 10 then [DigitChar(n)] else Decimal(n / 10) + [DigitChar(n % 10)]
  }

  /** Reads a string of decimal digits. */
  function ParseDecimal(s: string): nat
    requires AllDigits(s)
  {
    if s == [] then 0 else ParseDecimal(s[..|s| - 1]) * 10 + DigitValue(s[|s| - 1])
  }

  lemma {:induction false} ParseDecimalOfDecimal(n: nat)
    ensures ParseDecimal(Decimal(n)) == n
    decreases n
  {
    if n >= 10 {
      var s := Decimal(n);
      assert s[..|s| - 1] == Decimal(n / 10);
      ParseDecimalOfDecimal(n / 10);
    }
  }

  /** The stored file name for an upload at `ms` milliseconds of a file called `originalName`. */
  function Filename(ms: nat, originalName: string): (f: string)
    ensures |f| == |Decimal(ms)| + 1 + |Sanitize(originalName)|
    ensures f[..|Decimal(ms)|] == Decimal(ms) && f[|Decimal(ms)|] == '-'
    ensures f[|Decimal(ms)| + 1..] == Sanitize(originalName)
  {
    Decimal(ms) + "-" + Sanitize(originalName)
  }

  /** The stored file name holds no white space. */
  lemma FilenameNoSpace(ms: nat, originalName: string)
    ensures NoSpace(Filename(ms, originalName))
  {
    var f := Filename(ms, originalName);
    var d := Decimal(ms);
    SanitizeNoSpace(originalName);
    forall i | 0 <= i < |f| ensures !IsSpace(f[i]) {
      if i < |d| {
        assert f[i] == d[i];
      } else if i > |d| {
        assert f[i] == Sanitize(originalName)[i - |d| - 1];
      }
    }
  }

  /** The first position of `c` in `s`, or -1. */
  function FirstIndexOf(s: string, c: char): (k: int)
    ensures -1 <= k < |s|
    ensures k >= 0 ==> s[k] == c && c !in s[..k]
    ensures k == -1 ==> c !in s
  {
    if s == [] then -1
    else if s[0] == c then 0
    else
      var k := FirstIndexOf(s[1..], c);
      assert s == [s[0]] + s[1..];
      if k == -1 then -1
      else
        assert s[..k + 1] == [s[0]] + s[1..][..k];
        k + 1
  }

  /** Splits a stored file name back into its time stamp and its name part. */
  function ParseFilename(f: string): Option<(nat, string)> {
    var k := FirstIndexOf(f, '-');
    if k <= 0 || !AllDigits(f[..k]) then None
    else Some((ParseDecimal(f[..k]), f[k + 1..]))
  }

  /** The stored file name determines the upload time and the sanitised name. */
  lemma ParseFilenameOfFilename(ms: nat, originalName: string)
    ensures ParseFilename(Filename(ms, originalName)) == Some((ms, Sanitize(originalName)))
  {
    var d := Decimal(ms);
    var f := Filename(ms, originalName);
    assert '-' !in d by {
      forall i | 0 <= i < |d| ensures d[i] != '-' {
        assert IsDigit(d[i]);
      }
    }
    assert f[|d|] == '-';
    assert f[..|d|] == d;
    assert FirstIndexOf(f, '-') == |d|;
    assert f[|d| + 1..] == Sanitize(originalName);
    ParseDecimalOfDecimal(ms);
  }

  /** Two uploads get the same stored name only at the same time with the same sanitised name. */
  lemma FilenameInjective(ms1: nat, n1: string, ms2: nat, n2: string)
    requires Filename(ms1, n1) == Filename(ms2, n2)
    ensures ms1 == ms2 && Sanitize(n1) == Sanitize(n2)
  {
    ParseFilenameOfFilename(ms1, n1);
    ParseFilenameOfFilename(ms2, n2);
  }

  // ---------------------------------------------------------------------
  // The record
  // ---------------------------------------------------------------------

  const DefaultTags: string := "Gallery Image"
  const DefaultElement: string := "Pyro"
  const UploadFolder: string := "images/uploads/"

  /** `field || fallback` for a form field that is absent (`None`) or a string. */
  function OrDefault(field: Option<string>, fallback: string): (r: string)
    ensures field.Some? && field.value != "" ==> r == field.value
    ensures (field == None || field == Some("")) ==> r == fallback
    ensures fallback != "" ==> r != ""
  {
    if field.Some? && field.value != "" then field.value else fallback
  }

  /** The record written for one upload. */
  datatype ImageRecord = ImageRecord(url: string, tags: string, element: string, createdAt: string)

  /** The URL of a stored file, relative to the page. */
  function UrlOf(filename: string): (url: string)
    ensures |url| == |UploadFolder| + |filename|
    ensures url[..|UploadFolder|] == UploadFolder && url[|UploadFolder|..] == filename
  {
    UploadFolder + filename
  }

  /** `newImage` for a stored file name, the two form fields and the ISO time text. */
  function MakeRecord(filename: string, tags: Option<string>, element: Option<string>, isoNow: string): (r: ImageRecord)
    ensures r.url == UploadFolder + filename
    ensures r.tags != "" && r.element != "" && r.createdAt == isoNow
    ensures r.tags == OrDefault(tags, DefaultTags) && r.element == OrDefault(element, DefaultElement)
  {
    ImageRecord(UrlOf(filename), OrDefault(tags, DefaultTags), OrDefault(element, DefaultElement), isoNow)
  }

  /** The stored file name can be read back from the record's URL. */
  lemma UrlNamesFile(filename: string, tags: Option<string>, element: Option<string>, isoNow: string)
    ensures MakeRecord(filename, tags, element, isoNow).url[|UploadFolder|..] == filename
  {
  }
}
