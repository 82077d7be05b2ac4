/**
 * The filename and size helpers of `lib/utils.ts` and the accepted
 * extensions of `lib/constants.ts`: extension extraction, the supported
 * file check, the syntax-highlighting language hint, and the unit choice
 * (with the exact text of the byte branch) of the size formatter.
 */
module FileUtils {
  import opened Optional

  // ---------------------------------------------------------------------
  // Characters and strings
  // ---------------------------------------------------------------------

  const Dot: char := '.'

  /** `toLowerCase` on one character, for the ASCII letters. */
  function LowerChar(c: char): char
  {
    if 'A' <= c <= 'Z' then (c as int + 32) as char else c
  }

  /** `toLowerCase` on a string, character by character. */
  function ToLower(s: string): (r: string)
    ensures |r| == |s|
    ensures forall k :: 0 <= k < |s| ==> r[k] == LowerChar(s[k])
  {
    if s == [] then [] else ToLower(s[..|s| - 1]) + [LowerChar(s[|s| - 1])]
  }

  /** No ASCII capital letter. */
  predicate IsLowerCase(s: string)
  {
    forall k :: 0 <= k < |s| ==> !('A' <= s[k] <= 'Z')
  }

  /** Lower-casing yields lower case, and leaves lower case alone. */
  lemma ToLowerIdempotent(s: string)
    ensures IsLowerCase(ToLower(s))
    ensures ToLower(ToLower(s)) == ToLower(s)
    ensures IsLowerCase(s) ==> ToLower(s) == s
  {
  }

  /** Lower-casing commutes with taking a suffix. */
  lemma ToLowerSuffix(s: string, k: nat)
    requires k <= |s|
    ensures ToLower(s[k..]) == ToLower(s)[k..]
  {
  }

  /** `s.lastIndexOf(c)`: the last position holding `c`, absent when there is none. */
  function LastIndexOf(s: string, c: char): (r: Option<nat>)
    ensures r.None? <==> c !in s
    ensures r.Some? ==> r.value < |s| && s[r.value] == c && c !in s[r.value + 1..]
  {
    if s == [] then None
    else if s[|s| - 1] == c then Some(|s| - 1)
    else
      var init := s[..|s| - 1];
      var r := LastIndexOf(init, c);
      assert c in s <==> c in init by {
        assert s == init + [s[|s| - 1]];
      }
      assert r.Some? ==> s[r.value + 1..] == init[r.value + 1..] + [s[|s| - 1]];
      r
  }

  /** The one position holding the last dot is what `LastIndexOf` finds. */
  lemma LastDotAt(s: string, d: nat)
    requires d < |s| && s[d] == Dot && Dot !in s[d + 1..]
    ensures LastIndexOf(s, Dot) == Some(d)
  {
    assert s[d] in s;
  }

  /** Lower-casing a character with a dot in front. */
  lemma ToLowerCons(c: char, s: string)
    ensures ToLower([c] + s) == [LowerChar(c)] + ToLower(s)
  {
  }

  /** Lower-casing neither adds nor removes a dot. */
  lemma {:induction false} DotInLower(s: string)
    ensures Dot in ToLower(s) <==> Dot in s
  {
    if s != [] {
      var init := s[..|s| - 1];
      DotInLower(init);
      assert s == init + [s[|s| - 1]];
      assert ToLower(s) == ToLower(init) + [LowerChar(s[|s| - 1])];
    }
  }

  /** The dots of a string sit where the dots of its lower-cased form sit. */
  lemma {:induction false} LastDotOfLower(s: string)
    ensures LastIndexOf(ToLower(s), Dot) == LastIndexOf(s, Dot)
  {
    if s != [] {
      var init := s[..|s| - 1];
      LastDotOfLower(init);
      assert ToLower(s)[..|s| - 1] == ToLower(init);
    }
  }

  // ---------------------------------------------------------------------
  // Extensions
  // ---------------------------------------------------------------------

  /**
   * `getFileExtension`: empty when the name has no dot; otherwise the suffix
   * from the last dot on, lower-cased. Such an extension starts with the dot
   * and holds no other.
   */
  function GetFileExtension(filename: string): (ext: string)
    ensures Dot !in filename ==> ext == ""
    ensures Dot in filename ==> |ext| >= 1 && ext[0] == Dot && Dot !in ext[1..]
    ensures IsLowerCase(ext)
  {
    var dot := LastIndexOf(filename, Dot);
    if dot.None? then ""
    else
      var rest := filename[dot.value + 1..];
      assert filename[dot.value..] == [Dot] + rest;
      ToLowerCons(Dot, rest);
      DotInLower(rest);
      ToLowerIdempotent(filename[dot.value..]);
      ToLower(filename[dot.value..])
  }

  /** A well-formed extension: a dot, then lower-case characters with no dot. */
  predicate IsExtension(e: string)
  {
    |e| >= 1 && e[0] == Dot && Dot !in e[1..] && IsLowerCase(e)
  }

  /** `s` ends with `e`. */
  predicate EndsWith(s: string, e: string)
  {
    |e| <= |s| && s[|s| - |e|..] == e
  }

  /**
   * The extension of a name is a well-formed extension exactly when the
   * lower-cased name ends with it: a reference characterisation that does
   * not mention the last dot.
   */
  lemma ExtensionIffSuffix(filename: string, e: string)
    requires IsExtension(e)
    ensures GetFileExtension(filename) == e <==> EndsWith(ToLower(filename), e)
  {
    if GetFileExtension(filename) == e {
      ExtensionIsSuffix(filename);
    }
    if EndsWith(ToLower(filename), e) {
      SuffixIsExtension(filename, e);
    }
  }

  /** A non-empty extension is a suffix of the lower-cased name. */
  lemma ExtensionIsSuffix(filename: string)
    requires GetFileExtension(filename) != ""
    ensures EndsWith(ToLower(filename), GetFileExtension(filename))
  {
    assert Dot in filename;
    var d := LastIndexOf(filename, Dot).value;
    assert GetFileExtension(filename) == ToLower(filename[d..]);
    ToLowerSuffix(filename, d);
    SuffixEndsWith(ToLower(filename), d);
  }

  /** A string ends with each of its suffixes. */
  lemma SuffixEndsWith(s: string, d: nat)
    requires d <= |s|
    ensures EndsWith(s, s[d..])
  {
  }

  /** A well-formed extension that the lower-cased name ends with is its extension. */
  lemma SuffixIsExtension(filename: string, e: string)
    requires IsExtension(e) && EndsWith(ToLower(filename), e)
    ensures GetFileExtension(filename) == e
  {
    var low := ToLower(filename);
    var p := |low| - |e|;
    assert low[p..] == e;
    assert low[p] == Dot;
    assert low[p + 1..] == e[1..];
    LastDotAt(low, p);
    LastDotOfLower(filename);
    ToLowerSuffix(filename, p);
    assert GetFileExtension(filename) == ToLower(filename[p..]);
  }

  /** Lower-casing the name first changes nothing: the extension is case-insensitive. */
  lemma ExtensionCaseInsensitive(filename: string)
    ensures GetFileExtension(ToLower(filename)) == GetFileExtension(filename)
  {
    LastDotOfLower(filename);
    ToLowerIdempotent(filename);
    var dot := LastIndexOf(filename, Dot);
    if dot.Some? {
      ToLowerSuffix(filename, dot.value);
      ToLowerSuffix(ToLower(filename), dot.value);
    }
  }

  /** A name that is all extension, like `".env"`, is its own extension. */
  lemma DotFileExtension()
    ensures GetFileExtension(".env") == ".env"
  {
    assert ".env"[1..] == "env";
    LastDotAt(".env", 0);
    assert ".env"[0..] == ".env";
    ToLowerIdempotent(".env");
  }

  /** The extension of `"App.TSX"` is `".tsx"`. */
  lemma UpperCaseExtension()
    ensures GetFileExtension("App.TSX") == ".tsx"
  {
    assert "App.TSX"[4..] == "TSX";
    LastDotAt("App.TSX", 3);
    assert "App.TSX"[3..] == ".TSX";
    var low := ToLower(".TSX");
    assert low[0] == '.' && low[1] == 't' && low[2] == 's' && low[3] == 'x';
    assert low == ".tsx";
  }

  // ---------------------------------------------------------------------
  // Supported files
  // ---------------------------------------------------------------------

  /** `SUPPORTED_FILE_EXTENSIONS`, in the order of the constant. */
  const SupportedFileExtensions: seq<string> := [
    ".txt", ".md", ".log", ".conf", ".ini", ".csv", ".tsv",
    ".js", ".jsx", ".ts", ".tsx", ".json", ".py", ".css",
    ".html", ".xml", ".yaml", ".yml", ".sh", ".bash", ".sql", ".env"
  ]

  /** A dot followed by lower-case ASCII letters only. */
  predicate DotLetters(e: string)
  {
    |e| >= 2 && e[0] == Dot && forall k :: 1 <= k < |e| ==> 'a' <= e[k] <= 'z'
  }

  /** A dot and lower-case letters make a well-formed extension. */
  lemma DotLettersIsExtension(e: string)
    requires DotLetters(e)
    ensures IsExtension(e)
  {
    assert forall k :: 0 <= k < |e[1..]| ==> e[1..][k] == e[k + 1];
  }

  /** Every listed extension is a well-formed extension. */
  lemma SupportedExtensionsWellFormed()
    ensures |SupportedFileExtensions| == 22
    ensures forall k :: 0 <= k < |SupportedFileExtensions| ==> DotLetters(SupportedFileExtensions[k])
    ensures forall k :: 0 <= k < |SupportedFileExtensions| ==> IsExtension(SupportedFileExtensions[k])
  {
    assert forall k :: 0 <= k < |SupportedFileExtensions| ==> DotLetters(SupportedFileExtensions[k]);
    forall k | 0 <= k < |SupportedFileExtensions|
      ensures IsExtension(SupportedFileExtensions[k])
    {
      DotLettersIsExtension(SupportedFileExtensions[k]);
    }
  }

  /** `isSupportedFileType`: the extension of the name is one of the listed ones. */
  predicate IsSupportedFileType(filename: string): (supported: bool)
    ensures supported ==> Dot in filename
    ensures supported ==> IsExtension(GetFileExtension(filename))
  {
    SupportedExtensionsWellFormed();
    GetFileExtension(filename) in SupportedFileExtensions
  }

  /**
   * Reference characterisation: a name is supported exactly when its
   * lower-cased form ends with one of the listed extensions.
   */
  lemma SupportedIffListedSuffix(filename: string)
    ensures IsSupportedFileType(filename) <==>
            exists k :: 0 <= k < |SupportedFileExtensions| && EndsWith(ToLower(filename), SupportedFileExtensions[k])
  {
    SupportedExtensionsWellFormed();
    forall k | 0 <= k < |SupportedFileExtensions|
      ensures GetFileExtension(filename) == SupportedFileExtensions[k] <==>
              EndsWith(ToLower(filename), SupportedFileExtensions[k])
    {
      ExtensionIffSuffix(filename, SupportedFileExtensions[k]);
    }
  }

  /** A name without a dot is never supported. */
  lemma DotlessNeverSupported(filename: string)
    requires Dot !in filename
    ensures !IsSupportedFileType(filename)
  {
  }

  /** Support does not depend on letter case. */
  lemma SupportCaseInsensitive(filename: string)
    ensures IsSupportedFileType(ToLower(filename)) == IsSupportedFileType(filename)
  {
    ExtensionCaseInsensitive(filename);
  }

  /** `"App.TSX"` and `".env"` are supported, `"Makefile"` is not. */
  lemma SupportExamples()
    ensures IsSupportedFileType("App.TSX") && IsSupportedFileType(".env")
    ensures !IsSupportedFileType("Makefile")
  {
    UpperCaseExtension();
    DotFileExtension();
    assert SupportedFileExtensions[10] == ".tsx";
    assert SupportedFileExtensions[21] == ".env";
    assert forall k :: 0 <= k < |"Makefile"| ==> "Makefile"[k] != Dot;
    DotlessNeverSupported("Makefile");
  }

  // ---------------------------------------------------------------------
  // Language hint
  // ---------------------------------------------------------------------

  /** The extension-to-language table of `langFromExtension`. */
  const LanguageOf: map<string, string> := map[
    ".js" := "javascript", ".jsx" := "javascript",
    ".ts" := "typescript", ".tsx" := "typescript",
    ".py" := "python", ".json" := "json",
    ".css" := "css", ".html" := "html",
    ".xml" := "xml", ".md" := "markdown",
    ".sh" := "bash", ".bash" := "bash",
    ".sql" := "sql", ".yaml" := "yaml",
    ".yml" := "yaml", ".env" := "bash"
  ]

  const PlainText: string := "plaintext"

  /** The languages the table can name. */
  const Languages: set<string> := {
    "javascript", "typescript", "python", "json", "css", "html", "xml", "markdown", "bash", "sql", "yaml"
  }

  /**
   * `langFromExtension`: the table entry for the exact key, `"plaintext"`
   * otherwise. No table language is `"plaintext"`, so the default marks
   * exactly the keys the table lacks.
   */
  function LangFromExtension(ext: string): (lang: string)
    ensures ext in LanguageOf <==> lang != PlainText
    ensures lang in Languages || lang == PlainText
  {
    if ext in LanguageOf then LanguageOf[ext] else PlainText
  }

  /** Every key of the table is a supported extension. */
  lemma LanguageKeysAreSupported()
    ensures forall e :: e in LanguageOf ==> e in SupportedFileExtensions
  {
  }

  /** The lookup is exact: no case folding, no dot added. */
  lemma LanguageExamples()
    ensures LangFromExtension(".tsx") == "typescript"
    ensures LangFromExtension(".env") == "bash"
    ensures LangFromExtension(".TS") == PlainText
    ensures LangFromExtension("ts") == PlainText
    ensures LangFromExtension(".txt") == PlainText
  {
    assert ".TS" !in LanguageOf.Keys;
    assert "ts" !in LanguageOf.Keys;
    assert ".txt" !in LanguageOf.Keys;
  }

  /** For any name, the language of its extension is the language of its lower-cased extension. */
  lemma LanguageOfFileIsCaseInsensitive(filename: string)
    ensures LangFromExtension(GetFileExtension(filename)) == LangFromExtension(GetFileExtension(ToLower(filename)))
  {
    ExtensionCaseInsensitive(filename);
  }

  // ---------------------------------------------------------------------
  // Size formatting
  // ---------------------------------------------------------------------

  const KiB: int := 1024
  const MiB: int := 1_048_576

  /** `MAX_FILE_SIZE_BYTES`: one mebibyte. */
  const MaxFileSizeBytes: int := 1_048_576

  datatype SizeUnit = B | KB | MB
  {
    function Rank(): nat
    {
      match this
      case B => 0
      case KB => 1
      case MB => 2
    }
  }

  /** The unit `formatBytes` chooses: bytes below 1024, kilobytes below 1048576, else megabytes. */
  function SizeUnitOf(bytes: int): (u: SizeUnit)
    ensures u == B <==> bytes < KiB
    ensures u == MB <==> bytes >= MiB
  {
    if bytes < KiB then B else if bytes < MiB then KB else MB
  }

  /** A larger count never gets a smaller unit. */
  lemma SizeUnitMonotone(x: int, y: int)
    requires x <= y
    ensures SizeUnitOf(x).Rank() <= SizeUnitOf(y).Rank()
  {
  }

  /** The unit boundaries, and the upload limit is the first megabyte count. */
  lemma SizeUnitBoundaries()
    ensures SizeUnitOf(KiB - 1) == B && SizeUnitOf(KiB) == KB
    ensures SizeUnitOf(MiB - 1) == KB && SizeUnitOf(MiB) == MB
    ensures SizeUnitOf(MaxFileSizeBytes) == MB && SizeUnitOf(MaxFileSizeBytes - 1) == KB
    ensures forall n :: n < 0 ==> SizeUnitOf(n) == B
  {
  }

  /** The decimal digits of a count, most significant first, without leading zeros. */
  function Digits(n: nat): (s: string)
    ensures |s| >= 1
    ensures forall k :: 0 <= k < |s| ==> '0' <= s[k] <= '9'
    ensures |s| > 1 ==> s[0] != '0'
  {
    var d := (n % 10 + '0' as int) as char;
    if n < 10 then [d] else Digits(n / 10) + [d]
  }

  /** The value of a string of decimal digits. */
  function DigitsValue(s: string): int
  {
    if s == [] then 0 else DigitsValue(s[..|s| - 1]) * 10 + (s[|s| - 1] as int - '0' as int)
  }

  /** Reading the digits back gives the count. */
  lemma {:induction false} DigitsRoundTrip(n: nat)
    ensures DigitsValue(Digits(n)) == n
  {
    if n >= 10 {
      DigitsRoundTrip(n / 10);
      var s := Digits(n);
      assert s[..|s| - 1] == Digits(n / 10);
    }
  }

  /** Template-literal interpolation of an integer: a minus sign for negatives, then the digits. */
  function IntText(n: int): string
  {
    if n < 0 then "-" + Digits(-n) else Digits(n)
  }

  /** Reading an integer back from its text. */
  function ParseInt(s: string): int
  {
    if |s| > 0 && s[0] == '-' then -DigitsValue(s[1..]) else DigitsValue(s)
  }

  /** The text of an integer reads back as that integer. */
  lemma IntTextRoundTrip(n: int)
    ensures ParseInt(IntText(n)) == n
  {
    if n < 0 {
      DigitsRoundTrip(-n);
      assert IntText(n)[1..] == Digits(-n);
    } else {
      DigitsRoundTrip(n);
    }
  }

  /**
   * What `formatBytes` returns, to the extent it is modelled: the exact text
   * of the byte branch, and only the unit of the two scaled branches.
   */
  datatype FormattedSize = ByteText(text: string) | Scaled(unit: SizeUnit)

  /** `formatBytes` on an integer count. */
  function FormatBytes(bytes: int): (f: FormattedSize)
    ensures f.ByteText? <==> bytes < KiB
    ensures f.Scaled? ==> f.unit != B && (f.unit == MB <==> bytes >= MiB)
  {
    if bytes < KiB then ByteText(IntText(bytes) + " B") else Scaled(SizeUnitOf(bytes))
  }

  /**
   * The byte branch prints the count unchanged followed by `" B"`; the
   * other branches carry the unit `SizeUnitOf` picks.
   */
  lemma FormatBytesProperties(bytes: int)
    ensures FormatBytes(bytes).ByteText? <==> SizeUnitOf(bytes) == B
    ensures FormatBytes(bytes).ByteText? ==>
              var t := FormatBytes(bytes).text;
              |t| >= 3 && t[|t| - 2..] == " B" && ParseInt(t[..|t| - 2]) == bytes
    ensures FormatBytes(bytes).Scaled? ==> FormatBytes(bytes).unit == SizeUnitOf(bytes)
  {
    if bytes < KiB {
      var t := IntText(bytes) + " B";
      assert t[..|t| - 2] == IntText(bytes);
      IntTextRoundTrip(bytes);
    }
  }
}
