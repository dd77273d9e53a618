/** The machine-code to activation-key engine (`src/finalshell.rs`):
    validation and cleaning of machine codes, the four salted derivations,
    the all-versions result list, the default single-key path and the
    text report. MD5 and Keccak-384 are not computed here: they are the two
    functions of a `Hashers` value, known only to return lowercase hex of
    the right length. */
module FinalShell {
  import opened Results
  import opened Text
  import opened Models

  /** `format!("{:x}", md5)`: 32 lowercase hexadecimal characters. */
  type Md5Hex = s: string | |s| == 32 && IsLowerHex(s)
    witness "00000000000000000000000000000000"

  /** `format!("{:x}", keccak384)`: 96 lowercase hexadecimal characters. */
  type Keccak384Hex = s: string | |s| == 96 && IsLowerHex(s)
    witness seq(96, i => '0')

  /** The digest functions, applied to the UTF-8 bytes of their argument. */
  datatype Hashers = Hashers(md5: string -> Md5Hex, keccak384: string -> Keccak384Hex)

  /** `FinalShellVersionType`. */
  datatype FinalShellVersionType = Legacy | V396Plus | V45 | V46

  /** `LicenseType`: the two feature tiers. */
  datatype LicenseType = Advanced | Professional

  /** `ActivationResult`: one version's pair of keys and its display name. */
  datatype ActivationResult = ActivationResult(
    versionType: FinalShellVersionType,
    advancedCode: string,
    professionalCode: string,
    versionName: string)

  /** The display names `generate_all` gives the four versions. */
  const LegacyName: string := "FinalShell < 3.9.6"
  const V396PlusName: string := "FinalShell ≥ 3.9.6"
  const V45Name: string := "FinalShell 4.5"
  const V46Name: string := "FinalShell 4.6"

  /** An activation key: 16 uppercase hexadecimal characters. */
  predicate IsActivationKey(k: string) {
    |k| == 16 && IsUpperHex(k)
  }

  /** `r` is the result for version `v` under display name `name`, and
      both of its keys are activation keys. */
  predicate ResultFor(r: ActivationResult, v: FinalShellVersionType, name: string) {
    && r.versionType == v && r.versionName == name
    && IsActivationKey(r.advancedCode) && IsActivationKey(r.professionalCode)
  }

  // ---------------------------------------------------------------------
  // Validation and cleaning

  predicate IsAsciiAlphanumeric(c: char) {
    '0' <= c <= '9' || 'a' <= c <= 'z' || 'A' <= c <= 'Z'
  }

  /** The characters a machine code may hold, `@` included. */
  predicate IsMachineCodeChar(c: char) {
    IsAsciiAlphanumeric(c) || c == '-' || c == '_' || c == '@'
  }

  predicate AllMachineCodeChars(s: string) {
    forall i :: 0 <= i < |s| ==> IsMachineCodeChar(s[i])
  }

  /** `validate_machine_code`: the length test (at least 8 bytes) is made
      on the input as given; only the character test is made on the trimmed
      input. A valid code is therefore ASCII and free of whitespace once
      trimmed, but its surrounding whitespace counts towards its length. */
  function ValidateMachineCode(machineCode: string): (ok: bool)
    ensures ok <==> ByteLen(machineCode) >= 8 && AllMachineCodeChars(Trim(machineCode))
    ensures ok ==> IsAscii(Trim(machineCode))
    ensures ok ==> forall i :: 0 <= i < |Trim(machineCode)| ==> !IsWhitespace(Trim(machineCode)[i])
  {
    if machineCode == [] || ByteLen(machineCode) < 8 then
      false
    else
      var trimmed := Trim(machineCode);
      MachineCodeCharsAreAscii(trimmed);
      AllMachineCodeChars(trimmed)
  }

  /** The allowed characters are ASCII and none of them is whitespace. */
  lemma MachineCodeCharsAreAscii(s: string)
    ensures AllMachineCodeChars(s) ==> IsAscii(s)
    ensures AllMachineCodeChars(s) ==> forall i :: 0 <= i < |s| ==> !IsWhitespace(s[i])
  {
    if AllMachineCodeChars(s) {
      forall i | 0 <= i < |s| ensures IsAsciiChar(s[i]) && !IsWhitespace(s[i]) {
        assert IsMachineCodeChar(s[i]);
      }
    }
  }

  /** The four characters `clean_machine_code` removes everywhere. */
  const Blanks: set<char> := {' ', '\n', '\r', '\t'}

  /** `str::replace(c, "")`: every occurrence of `c` removed. */
  function RemoveAll(s: string, c: char): (r: string)
    ensures c !in r
    ensures |r| <= |s|
  {
    if s == [] then []
    else (if s[0] == c then [] else [s[0]]) + RemoveAll(s[1..], c)
  }

  /** The characters of `s` that are not in `drop`, in their original order. */
  function FilterOut(s: string, drop: set<char>): (r: string)
    ensures forall i :: 0 <= i < |r| ==> r[i] !in drop
    ensures |r| <= |s|
  {
    if s == [] then []
    else (if s[0] in drop then [] else [s[0]]) + FilterOut(s[1..], drop)
  }

  /** `clean_machine_code`: trim, then remove every space, line feed,
      carriage return and tab. */
  function CleanMachineCode(machineCode: string): (r: string)
    ensures r == FilterOut(Trim(machineCode), Blanks)
  {
    RemovalsAreFilter(Trim(machineCode));
    RemoveAll(RemoveAll(RemoveAll(RemoveAll(Trim(machineCode), ' '), '\n'), '\r'), '\t')
  }

  lemma {:induction false} RemoveAllAfterFilter(s: string, drop: set<char>, c: char)
    ensures RemoveAll(FilterOut(s, drop), c) == FilterOut(s, drop + {c})
  {
    if s != [] {
      RemoveAllAfterFilter(s[1..], drop, c);
      var head := if s[0] in drop then [] else [s[0]];
      RemoveAllAppend(head, FilterOut(s[1..], drop), c);
    }
  }

  lemma {:induction false} RemoveAllAppend(a: string, b: string, c: char)
    ensures RemoveAll(a + b, c) == RemoveAll(a, c) + RemoveAll(b, c)
  {
    if a == [] {
      assert a + b == b;
    } else {
      assert (a + b)[0] == a[0];
      assert (a + b)[1..] == a[1..] + b;
      RemoveAllAppend(a[1..], b, c);
    }
  }

  lemma {:induction false} FilterOutAppend(a: string, b: string, drop: set<char>)
    ensures FilterOut(a + b, drop) == FilterOut(a, drop) + FilterOut(b, drop)
  {
    if a == [] {
      assert a + b == b;
    } else {
      assert (a + b)[0] == a[0];
      assert (a + b)[1..] == a[1..] + b;
      FilterOutAppend(a[1..], b, drop);
    }
  }

  lemma {:induction false} FilterOutNothing(s: string, drop: set<char>)
    requires forall i :: 0 <= i < |s| ==> s[i] !in drop
    ensures FilterOut(s, drop) == s
  {
    if s != [] {
      FilterOutNothing(s[1..], drop);
    }
  }

  lemma RemovalsAreFilter(t: string)
    ensures RemoveAll(RemoveAll(RemoveAll(RemoveAll(t, ' '), '\n'), '\r'), '\t') == FilterOut(t, Blanks)
  {
    FilterOutNothing(t, {});
    RemoveAllAfterFilter(t, {}, ' ');
    assert {} + {' '} == {' '};
    RemoveAllAfterFilter(t, {' '}, '\n');
    assert {' '} + {'\n'} == {' ', '\n'};
    RemoveAllAfterFilter(t, {' ', '\n'}, '\r');
    assert {' ', '\n'} + {'\r'} == {' ', '\n', '\r'};
    RemoveAllAfterFilter(t, {' ', '\n', '\r'}, '\t');
    assert {' ', '\n', '\r'} + {'\t'} == Blanks;
  }

  /** The cleaned code holds no blank. */
  lemma CleanHasNoBlanks(machineCode: string)
    ensures var r := CleanMachineCode(machineCode);
      forall i :: 0 <= i < |r| ==> r[i] != ' ' && r[i] != '\n' && r[i] != '\r' && r[i] != '\t'
  {
  }

  /** Blanks are whitespace, so a character that is not whitespace is kept. */
  lemma BlanksAreWhitespace(c: char)
    requires c in Blanks
    ensures IsWhitespace(c)
  {
  }

  /** Filtering blanks out of a trimmed string leaves a trimmed string. */
  lemma {:induction false} FilterKeepsEnds(t: string)
    requires t != [] ==> !IsWhitespace(t[0]) && !IsWhitespace(t[|t| - 1])
    ensures Trim(FilterOut(t, Blanks)) == FilterOut(t, Blanks)
  {
    var r := FilterOut(t, Blanks);
    if t != [] {
      var first, last := t[0], t[|t| - 1];
      if first in Blanks { BlanksAreWhitespace(first); }
      if last in Blanks { BlanksAreWhitespace(last); }
      assert r == [first] + FilterOut(t[1..], Blanks);
      assert t == t[..|t| - 1] + [last];
      FilterOutAppend(t[..|t| - 1], [last], Blanks);
      assert FilterOut([last], Blanks) == [last];
      assert r[0] == first && r[|r| - 1] == last;
    }
    TrimOfTrimmed(r);
  }

  /** Cleaning twice is cleaning once. */
  lemma CleanIdempotent(machineCode: string)
    ensures CleanMachineCode(CleanMachineCode(machineCode)) == CleanMachineCode(machineCode)
  {
    var t := Trim(machineCode);
    var r := CleanMachineCode(machineCode);
    FilterKeepsEnds(t);
    assert Trim(r) == r;
    FilterOutNothing(r, Blanks);
  }

  /** On a valid code, cleaning only trims. */
  lemma ValidCleanIsTrim(machineCode: string)
    requires ValidateMachineCode(machineCode)
    ensures CleanMachineCode(machineCode) == Trim(machineCode)
  {
    var t := Trim(machineCode);
    forall i | 0 <= i < |t| ensures t[i] !in Blanks {
      NotWhitespaceNotBlank(t[i]);
    }
    FilterOutNothing(t, Blanks);
  }

  lemma NotWhitespaceNotBlank(c: char)
    requires !IsWhitespace(c)
    ensures c !in Blanks
  {
  }

  /** The source's validation test cases. "ABC@123" is refused for its
      length of 7 bytes, not for its `@`: one more character makes it valid. */
  lemma ValidateAcceptsPlain()
    ensures ValidateMachineCode("ABC123DEF456")
  {
    ValidExample("ABC123DEF456");
  }

  lemma ValidateAcceptsDashes()
    ensures ValidateMachineCode("abc-123-def")
  {
    ValidExample("abc-123-def");
  }

  lemma ValidateAcceptsAt()
    ensures ValidateMachineCode("ABC@1234")
  {
    ValidExample("ABC@1234");
  }

  lemma ValidateRejects()
    ensures !ValidateMachineCode("")
    ensures !ValidateMachineCode("123")
    ensures !ValidateMachineCode("ABC@123")
  {
    ShortExample("123");
    ShortExample("ABC@123");
  }

  /** Fewer than 8 ASCII characters are too short, whatever they are. */
  lemma ShortExample(code: string)
    requires |code| < 8 && IsAscii(code)
    ensures !ValidateMachineCode(code)
  {
  }

  /** A code of at least 8 characters, all of them allowed, is valid. */
  lemma ValidExample(code: string)
    requires |code| >= 8 && AllMachineCodeChars(code)
    ensures ValidateMachineCode(code)
  {
    assert IsAscii(code);
    TrimOfTrimmed(code);
  }

  /** A two-character code padded with six spaces is 8 bytes long as given,
      so it passes although its trimmed form is 2 characters. */
  lemma PaddedShortCodeIsValid()
    ensures ValidateMachineCode("ab      ")
    ensures Trim("ab      ") == "ab"
  {
    var x := "ab";
    var padded := x + seq(6, i => ' ');
    assert "ab      " == padded;
    TrimEndPadding(x, 6);
    assert TrimStart(padded) == padded by {
      assert !IsWhitespace(padded[0]);
    }
    assert IsAscii(padded);
  }

  /** Trailing spaces after a character that is not whitespace are trimmed. */
  lemma {:induction false} TrimEndPadding(x: string, n: nat)
    requires x != [] && !IsWhitespace(x[|x| - 1])
    ensures TrimEnd(x + seq(n, i => ' ')) == x
  {
    var padded := x + seq(n, i => ' ');
    if n == 0 {
      assert padded == x;
    } else {
      assert padded[|padded| - 1] == ' ';
      assert padded[..|padded| - 1] == x + seq(n - 1, i => ' ');
      TrimEndPadding(x, n - 1);
    }
  }

  lemma FilterExample()
    ensures FilterOut("ABC 123\nDEF\t456", Blanks) == "ABC123DEF456"
  {
    SplitExample();
    FilterExamplePieces();
  }

  lemma SplitExample()
    ensures "ABC 123\nDEF\t456" == "ABC " + "123\n" + "DEF\t" + "456"
  {
  }

  lemma FilterExamplePieces()
    ensures FilterOut("ABC " + "123\n" + "DEF\t" + "456", Blanks) == "ABC123DEF456"
  {
    var a, b, c, d := "ABC", "123", "DEF", "456";
    DropTrailingBlank(a, ' ');
    DropTrailingBlank(b, '\n');
    DropTrailingBlank(c, '\t');
    FilterOutNothing(d, Blanks);
    assert "ABC " == a + [' '];
    assert "123\n" == b + ['\n'];
    assert "DEF\t" == c + ['\t'];
    FourChunks(a + [' '], b + ['\n'], c + ['\t'], d);
  }

  lemma FourChunks(a: string, b: string, c: string, d: string)
    ensures FilterOut(a + b + c + d, Blanks)
      == FilterOut(a, Blanks) + FilterOut(b, Blanks) + FilterOut(c, Blanks) + FilterOut(d, Blanks)
  {
    FilterOutAppend(a, b, Blanks);
    FilterOutAppend(a + b, c, Blanks);
    FilterOutAppend(a + b + c, d, Blanks);
  }

  /** A blank at the end of a blank-free string is dropped. */
  lemma DropTrailingBlank(x: string, c: char)
    requires c in Blanks
    requires forall i :: 0 <= i < |x| ==> x[i] !in Blanks
    ensures FilterOut(x + [c], Blanks) == x
  {
    FilterOutAppend(x, [c], Blanks);
    FilterOutNothing(x, Blanks);
    assert FilterOut([c], Blanks) == [];
  }

  /** The source's cleaning test case. */
  lemma CleanExample()
    ensures CleanMachineCode(" ABC 123\nDEF\t456 ") == "ABC123DEF456"
  {
    var inner := "ABC 123\nDEF\t456";
    assert " ABC 123\nDEF\t456 " == " " + inner + " ";
    TrimSpaces(inner);
    FilterExample();
  }

  /** One space on either side of a trimmed text is trimmed away. */
  lemma TrimSpaces(x: string)
    requires x != [] && !IsWhitespace(x[0]) && !IsWhitespace(x[|x| - 1])
    ensures Trim(" " + x + " ") == x
  {
    var s := " " + x + " ";
    assert s[1..] == x + " ";
    assert TrimStart(s[1..]) == x + " ";
    assert TrimStart(s) == x + " ";
    assert (x + " ")[..|x|] == x;
  }

  // ---------------------------------------------------------------------
  // Key derivation

  /** `calc_md5`: it has no error path, so the digest is returned as is. */
  function CalcMd5(h: Hashers, data: string): (digest: string)
    ensures |digest| == 32 && IsLowerHex(digest)
  {
    h.md5(data)
  }

  /** `calc_keccak384`: it has no error path either. */
  function CalcKeccak384(h: Hashers, data: string): (digest: string)
    ensures |digest| == 96 && IsLowerHex(digest)
  {
    h.keccak384(data)
  }

  /** A 16-character slice of a lowercase hex digest, upper-cased, is an
      activation key from which the slice can be read back. */
  lemma DigestSliceIsKey(digest: string, lo: nat)
    requires IsLowerHex(digest) && lo + 16 <= |digest|
    ensures IsActivationKey(ToUpper(digest[lo..lo + 16]))
    ensures ToLower(ToUpper(digest[lo..lo + 16])) == digest[lo..lo + 16]
  {
    UpperHexRoundTrip(digest[lo..lo + 16]);
  }

  /** `hash[lo..lo + 16].to_uppercase()`: the key cut out of a digest. */
  function ExtractKey(digest: string, lo: nat): (key: string)
    requires IsLowerHex(digest) && lo + 16 <= |digest|
    ensures IsActivationKey(key)
    ensures ToLower(key) == digest[lo..lo + 16]
  {
    DigestSliceIsKey(digest, lo);
    ToUpper(digest[lo..lo + 16])
  }

  /** `generate_legacy`: MD5 over the code wrapped in a tier prefix and
      suffix, characters 8 to 24 of the hex digest, upper-cased. */
  function GenerateLegacy(h: Hashers, machineCode: string): (r: ActivationResult)
    ensures ResultFor(r, Legacy, LegacyName)
    ensures ToLower(r.advancedCode) == h.md5("61305" + machineCode + "8552")[8..24]
    ensures ToLower(r.professionalCode) == h.md5("2356" + machineCode + "13593")[8..24]
  {
    ActivationResult(Legacy,
      ExtractKey(CalcMd5(h, "61305" + machineCode + "8552"), 8),
      ExtractKey(CalcMd5(h, "2356" + machineCode + "13593"), 8),
      LegacyName)
  }

  /** `generate_v396_plus`: Keccak-384 over the code followed by a tier
      suffix, characters 12 to 28 of the hex digest, upper-cased. */
  function GenerateV396Plus(h: Hashers, machineCode: string): (r: ActivationResult)
    ensures ResultFor(r, V396Plus, V396PlusName)
    ensures ToLower(r.advancedCode) == h.keccak384(machineCode + "hSf(78cvVlS5E")[12..28]
    ensures ToLower(r.professionalCode) == h.keccak384(machineCode + "FF3Go(*Xvbb5s2")[12..28]
  {
    ActivationResult(V396Plus,
      ExtractKey(CalcKeccak384(h, machineCode + "hSf(78cvVlS5E"), 12),
      ExtractKey(CalcKeccak384(h, machineCode + "FF3Go(*Xvbb5s2"), 12),
      V396PlusName)
  }

  /** `generate_v45`: as `generate_v396_plus` with the 4.5 suffixes. */
  function GenerateV45(h: Hashers, machineCode: string): (r: ActivationResult)
    ensures ResultFor(r, V45, V45Name)
    ensures ToLower(r.advancedCode) == h.keccak384(machineCode + "wcegS3gzA$")[12..28]
    ensures ToLower(r.professionalCode) == h.keccak384(machineCode + "b(xxkHn%z);x")[12..28]
  {
    ActivationResult(V45,
      ExtractKey(CalcKeccak384(h, machineCode + "wcegS3gzA$"), 12),
      ExtractKey(CalcKeccak384(h, machineCode + "b(xxkHn%z);x"), 12),
      V45Name)
  }

  /** `generate_v46`: as `generate_v396_plus` with the 4.6 suffixes. */
  function GenerateV46(h: Hashers, machineCode: string): (r: ActivationResult)
    ensures ResultFor(r, V46, V46Name)
    ensures ToLower(r.advancedCode) == h.keccak384(machineCode + "csSf5*xlkgYSX,y")[12..28]
    ensures ToLower(r.professionalCode) == h.keccak384(machineCode + "Scfg*ZkvJZc,s,Y")[12..28]
  {
    ActivationResult(V46,
      ExtractKey(CalcKeccak384(h, machineCode + "csSf5*xlkgYSX,y"), 12),
      ExtractKey(CalcKeccak384(h, machineCode + "Scfg*ZkvJZc,s,Y"), 12),
      V46Name)
  }

  // ---------------------------------------------------------------------
  // Aggregation

  /** The results `generate_all` collects, in its order. */
  function AllResults(h: Hashers, machineCode: string): (rs: seq<ActivationResult>)
    ensures |rs| == 4
    ensures ResultFor(rs[0], Legacy, LegacyName) && ResultFor(rs[1], V396Plus, V396PlusName)
    ensures ResultFor(rs[2], V45, V45Name) && ResultFor(rs[3], V46, V46Name)
  {
    [GenerateLegacy(h, machineCode), GenerateV396Plus(h, machineCode),
     GenerateV45(h, machineCode), GenerateV46(h, machineCode)]
  }

  /** `generate_all`: pushes the four versions' results onto a list; it
      always succeeds. */
  method GenerateAll(h: Hashers, machineCode: string) returns (r: Result<seq<ActivationResult>>)
    ensures r == Ok(AllResults(h, machineCode))
  {
    var results: seq<ActivationResult> := [];
    results := results + [GenerateLegacy(h, machineCode)];
    results := results + [GenerateV396Plus(h, machineCode)];
    results := results + [GenerateV45(h, machineCode)];
    results := results + [GenerateV46(h, machineCode)];
    assert results == AllResults(h, machineCode);
    return Ok(results);
  }

  /** Position in `generate_all`'s list of the version a label names. */
  function LabelIndex(name: string): (i: nat)
    requires IsKnownLabel(name)
    ensures i < 4
    ensures [LegacyLabel, V396PlusLabel, V45Label, V46Label][i] == name
  {
    if name == LegacyLabel then 0
    else if name == V396PlusLabel then 1
    else if name == V45Label then 2
    else 3
  }

  /** `generate`: the Professional key of the version the classifier names,
      paired with the classifier's verdict. The catch-all arm is kept as
      written; it is never taken. */
  function Generate(h: Hashers, machineCode: string): (r: Result<(string, FinalShellVersion)>)
    ensures r.Ok?
    ensures r.value.1 == DetectVersion(machineCode)
    ensures IsActivationKey(r.value.0)
    ensures r.value.0 == AllResults(h, machineCode)[LabelIndex(r.value.1.version)].professionalCode
  {
    var version := DetectVersion(machineCode);
    var result := match version.version
      case "< 3.9.6" => GenerateLegacy(h, machineCode)
      case "≥ 3.9.6" => GenerateV396Plus(h, machineCode)
      case "4.5" => GenerateV45(h, machineCode)
      case "4.6+" => GenerateV46(h, machineCode)
      case _ => GenerateV396Plus(h, machineCode);
    Ok((result.professionalCode, version))
  }

  /** The description of each label, in list order. */
  const VersionInfos: seq<string> :=
    ["FinalShell 3.9.6 以前版本", "FinalShell 3.9.6 及以后版本", "FinalShell 4.5 版本", "FinalShell 4.6 及以后版本"]

  /** `detect_version_info`: a description per label. The generic fallback
      is never produced, each label gets its own text, and the "before
      3.9.6" text appears exactly for legacy codes. */
  function DetectVersionInfo(machineCode: string): (info: string)
    ensures info != "FinalShell 通用版本"
    ensures info == VersionInfos[LabelIndex(DetectVersion(machineCode).version)]
    ensures info == "FinalShell 3.9.6 以前版本" <==> DetectVersion(machineCode).isLegacy
  {
    var version := DetectVersion(machineCode);
    match version.version
    case "< 3.9.6" => "FinalShell 3.9.6 以前版本"
    case "≥ 3.9.6" => "FinalShell 3.9.6 及以后版本"
    case "4.5" => "FinalShell 4.5 版本"
    case "4.6+" => "FinalShell 4.6 及以后版本"
    case _ => "FinalShell 通用版本"
  }

  // ---------------------------------------------------------------------
  // Report

  const Rule: string := "═══════════════════════════════════════"

  /** Everything `format_all_codes` writes before the results; the
      generation time is given as already formatted text. */
  function ReportHeader(machineCode: string, timestamp: string): (r: string)
    ensures Contains(r, machineCode)
    ensures Contains(r, timestamp)
  {
    HeaderMentions(Rule + "\n" + "🎉        FinalShell 激活码生成器        🎉\n" + Rule + "\n\n" + "🔑 输入机器码: `",
                   machineCode, "`\n", "📅 生成时间: ", timestamp, "\n\n", "🎯 生成结果:\n\n");
    Rule + "\n"
    + "🎉        FinalShell 激活码生成器        🎉\n"
    + Rule + "\n\n"
    + "🔑 输入机器码: `" + machineCode + "`\n"
    + "📅 生成时间: " + timestamp + "\n\n"
    + "🎯 生成结果:\n\n"
  }

  const ReportFooter: string :=
    Rule + "\n"
    + "💡 提示: 欢迎使用 🟢 激活码生成工具\n"
    + "🛡️ 请合理使用 滥用必究\n"
    + Rule + "\n"

  /** The icon of the result at a position of the list. */
  function VersionIcon(index: nat): string {
    match index
    case 0 => "🔹"
    case 1 => "🔸"
    case 2 => "🔷"
    case 3 => "🔶"
    case _ => "📌"
  }

  const AdvancedTier: string := "高级版"
  const ProfessionalTier: string := "专业版"

  /** A tier's line of a block: the tier, then its key in backticks. */
  function KeyLine(tier: string, key: string): string {
    tier + ": `" + key + "`"
  }

  /** One result's block: icon and name, then the Advanced (高级版) and the
      Professional (专业版) key. */
  function ResultSection(index: nat, result: ActivationResult): (r: string)
    ensures Contains(r, result.versionName)
    ensures Contains(r, KeyLine(AdvancedTier, result.advancedCode))
    ensures Contains(r, KeyLine(ProfessionalTier, result.professionalCode))
    ensures Contains(r, AdvancedTier) && Contains(r, ProfessionalTier)
  {
    SectionMentions(VersionIcon(index) + " ", result.versionName, result.advancedCode, result.professionalCode);
    VersionIcon(index) + " " + result.versionName + SectionTail(result.advancedCode, result.professionalCode)
  }

  /** The blocks of the first `n` results, in list order. */
  function ResultSections(results: seq<ActivationResult>, n: nat): string
    requires n <= |results|
  {
    if n == 0 then "" else ResultSections(results, n - 1) + ResultSection(n - 1, results[n - 1])
  }

  function Report(machineCode: string, timestamp: string, results: seq<ActivationResult>): (r: string)
    ensures |r| >= |ReportHeader(machineCode, timestamp)| + |ReportFooter|
    ensures r[..|ReportHeader(machineCode, timestamp)|] == ReportHeader(machineCode, timestamp)
    ensures r[|r| - |ReportFooter|..] == ReportFooter
  {
    ReportHeader(machineCode, timestamp) + ResultSections(results, |results|) + ReportFooter
  }

  /** `format_all_codes`: builds the report by appending, one result at a
      time in list order; it always succeeds. */
  method FormatAllCodes(h: Hashers, machineCode: string, timestamp: string) returns (r: Result<string>)
    ensures r == Ok(Report(machineCode, timestamp, AllResults(h, machineCode)))
  {
    var all := GenerateAll(h, machineCode);
    var results := all.value;
    var output := Rule + "\n";
    output := output + "🎉        FinalShell 激活码生成器        🎉\n";
    output := output + Rule + "\n\n";
    output := output + "🔑 输入机器码: `" + machineCode + "`\n";
    output := output + "📅 生成时间: " + timestamp + "\n\n";
    output := output + "🎯 生成结果:\n\n";
    assert output == ReportHeader(machineCode, timestamp);
    output := AppendSections(output, results);
    ghost var body := output;
    output := output + Rule + "\n";
    output := output + "💡 提示: 欢迎使用 🟢 激活码生成工具\n";
    output := output + "🛡️ 请合理使用 滥用必究\n";
    output := output + Rule + "\n";
    AppendFooter(body, Rule, "\n", "💡 提示: 欢迎使用 🟢 激活码生成工具\n", "🛡️ 请合理使用 滥用必究\n");
    return Ok(output);
  }

  /** The loop of `format_all_codes`: appends each result's block, in list
      order, to the text built so far. */
  method AppendSections(start: string, results: seq<ActivationResult>) returns (output: string)
    ensures output == start + ResultSections(results, |results|)
  {
    output := start;
    for index := 0 to |results|
      invariant output == start + ResultSections(results, index)
    {
      AppendAssoc(start, ResultSections(results, index), ResultSection(index, results[index]));
      output := output + ResultSection(index, results[index]);
    }
  }

  lemma AppendAssoc(a: string, b: string, c: string)
    ensures a + b + c == a + (b + c)
  {
  }

  lemma AppendFooter(x: string, rule: string, nl: string, l1: string, l2: string)
    ensures x + rule + nl + l1 + l2 + rule + nl == x + (rule + nl + l1 + l2 + rule + nl)
  {
  }

  /** The report shows the four versions in the order Legacy, ≥ 3.9.6, 4.5,
      4.6, each with both keys, between the header and the footer. */
  lemma ReportLayout(h: Hashers, machineCode: string, timestamp: string)
    ensures var rs := AllResults(h, machineCode);
      Report(machineCode, timestamp, rs)
        == ReportHeader(machineCode, timestamp)
           + ResultSection(0, rs[0]) + ResultSection(1, rs[1])
           + ResultSection(2, rs[2]) + ResultSection(3, rs[3])
           + ReportFooter
  {
    var rs := AllResults(h, machineCode);
    FourSections(rs);
    var head, foot := ReportHeader(machineCode, timestamp), ReportFooter;
    var s0, s1, s2, s3 := ResultSection(0, rs[0]), ResultSection(1, rs[1]),
      ResultSection(2, rs[2]), ResultSection(3, rs[3]);
    Append6(head, s0, s1, s2, s3, foot);
  }

  lemma Append6(h: string, a: string, b: string, c: string, d: string, f: string)
    ensures h + (a + b + c + d) + f == h + a + b + c + d + f
  {
  }

  /** A four-result list gives its four blocks in list order. */
  lemma FourSections(rs: seq<ActivationResult>)
    requires |rs| == 4
    ensures ResultSections(rs, 4)
      == ResultSection(0, rs[0]) + ResultSection(1, rs[1]) + ResultSection(2, rs[2]) + ResultSection(3, rs[3])
  {
    var s0, s1, s2, s3 := ResultSection(0, rs[0]), ResultSection(1, rs[1]),
      ResultSection(2, rs[2]), ResultSection(3, rs[3]);
    assert ResultSections(rs, 1) == s0 by {
      assert ResultSections(rs, 1) == "" + s0;
    }
    assert ResultSections(rs, 2) == s0 + s1;
    assert ResultSections(rs, 3) == s0 + s1 + s2;
    assert ResultSections(rs, 4) == s0 + s1 + s2 + s3;
  }

  /** The texts the source's report test looks for are all present. */
  lemma ReportMentionsAllVersions(h: Hashers, machineCode: string, timestamp: string)
    ensures Contains(Report(machineCode, timestamp, AllResults(h, machineCode)), LegacyName)
    ensures Contains(Report(machineCode, timestamp, AllResults(h, machineCode)), V396PlusName)
    ensures Contains(Report(machineCode, timestamp, AllResults(h, machineCode)), V45Name)
    ensures Contains(Report(machineCode, timestamp, AllResults(h, machineCode)), V46Name)
    ensures Contains(Report(machineCode, timestamp, AllResults(h, machineCode)), AdvancedTier)
    ensures Contains(Report(machineCode, timestamp, AllResults(h, machineCode)), ProfessionalTier)
  {
    var rs := AllResults(h, machineCode);
    ReportContains(machineCode, timestamp, rs, 0, LegacyName);
    ReportContains(machineCode, timestamp, rs, 1, V396PlusName);
    ReportContains(machineCode, timestamp, rs, 2, V45Name);
    ReportContains(machineCode, timestamp, rs, 3, V46Name);
    ReportContains(machineCode, timestamp, rs, 0, AdvancedTier);
    ReportContains(machineCode, timestamp, rs, 0, ProfessionalTier);
  }

  /** Every key of every version appears in the report, in backticks after
      its tier. */
  lemma ReportShowsKeys(h: Hashers, machineCode: string, timestamp: string)
    ensures forall k :: 0 <= k < |AllResults(h, machineCode)| ==>
      Contains(Report(machineCode, timestamp, AllResults(h, machineCode)),
               KeyLine(AdvancedTier, AllResults(h, machineCode)[k].advancedCode))
    ensures forall k :: 0 <= k < |AllResults(h, machineCode)| ==>
      Contains(Report(machineCode, timestamp, AllResults(h, machineCode)),
               KeyLine(ProfessionalTier, AllResults(h, machineCode)[k].professionalCode))
  {
    var rs := AllResults(h, machineCode);
    forall k | 0 <= k < |rs|
      ensures Contains(Report(machineCode, timestamp, rs), KeyLine(AdvancedTier, rs[k].advancedCode))
      ensures Contains(Report(machineCode, timestamp, rs), KeyLine(ProfessionalTier, rs[k].professionalCode))
    {
      ReportContains(machineCode, timestamp, rs, k, KeyLine(AdvancedTier, rs[k].advancedCode));
      ReportContains(machineCode, timestamp, rs, k, KeyLine(ProfessionalTier, rs[k].professionalCode));
    }
  }

  /** Text found in one result's block is found in the report. */
  lemma ReportContains(machineCode: string, timestamp: string, rs: seq<ActivationResult>, k: nat, t: string)
    requires k < |rs| && Contains(ResultSection(k, rs[k]), t)
    ensures Contains(Report(machineCode, timestamp, rs), t)
  {
    SectionsContain(rs, |rs|, k, t);
    ContainsExtend(ReportHeader(machineCode, timestamp), ResultSections(rs, |rs|), ReportFooter, t);
  }

  /** Text found in block `k` is found in the blocks of the first `n`
      results once `k < n`. */
  lemma {:induction false} SectionsContain(rs: seq<ActivationResult>, n: nat, k: nat, t: string)
    requires k < n <= |rs| && Contains(ResultSection(k, rs[k]), t)
    ensures Contains(ResultSections(rs, n), t)
  {
    var before, last := ResultSections(rs, n - 1), ResultSection(n - 1, rs[n - 1]);
    assert ResultSections(rs, n) == before + last;
    if k < n - 1 {
      SectionsContain(rs, n - 1, k, t);
    }
    ContainsEither(before, last, t);
  }

  /** The header shows the code and the time it puts between fixed text. */
  lemma HeaderMentions(a: string, code: string, b1: string, b2: string, time: string, c1: string, c2: string)
    ensures Contains(a + code + b1 + b2 + time + c1 + c2, code)
    ensures Contains(a + code + b1 + b2 + time + c1 + c2, time)
  {
    var s := a + code + b1 + b2 + time + c1 + c2;
    assert s[|a|..|a| + |code|] == code;
    ContainsAt(s, code, |a|);
    var k := |a| + |code| + |b1| + |b2|;
    assert s[k..k + |time|] == time;
    ContainsAt(s, time, k);
  }

  /** A block names its version and shows both tiers, each with its key. */
  lemma SectionMentions(icon: string, name: string, adv: string, pro: string)
    ensures Contains(icon + name + SectionTail(adv, pro), name)
    ensures Contains(icon + name + SectionTail(adv, pro), KeyLine(AdvancedTier, adv))
    ensures Contains(icon + name + SectionTail(adv, pro), KeyLine(ProfessionalTier, pro))
    ensures Contains(icon + name + SectionTail(adv, pro), AdvancedTier)
    ensures Contains(icon + name + SectionTail(adv, pro), ProfessionalTier)
  {
    ContainsMiddle(icon, name, SectionTail(adv, pro));
    TailMentions(adv, pro);
    ContainsEither(icon + name, SectionTail(adv, pro), KeyLine(AdvancedTier, adv));
    ContainsEither(icon + name, SectionTail(adv, pro), KeyLine(ProfessionalTier, pro));
    ContainsEither(icon + name, SectionTail(adv, pro), AdvancedTier);
    ContainsEither(icon + name, SectionTail(adv, pro), ProfessionalTier);
  }

  /** What follows the version name in a block. */
  function SectionTail(adv: string, pro: string): string {
    "\n┣━ 🟡 " + KeyLine(AdvancedTier, adv) + "\n┗━ 🟢 " + KeyLine(ProfessionalTier, pro) + "\n\n"
  }

  /** The tail of a block shows both key lines and both tiers. */
  lemma TailMentions(adv: string, pro: string)
    ensures Contains(SectionTail(adv, pro), KeyLine(AdvancedTier, adv))
    ensures Contains(SectionTail(adv, pro), KeyLine(ProfessionalTier, pro))
    ensures Contains(SectionTail(adv, pro), AdvancedTier)
    ensures Contains(SectionTail(adv, pro), ProfessionalTier)
  {
    var b1, b2, b3 := "\n┣━ 🟡 ", "\n┗━ 🟢 ", "\n\n";
    var k1, k2 := KeyLine(AdvancedTier, adv), KeyLine(ProfessionalTier, pro);
    TailParts(b1, k1, b2, k2, b3);
    TierLeads(b1, AdvancedTier, adv, b2 + k2 + b3);
    assert b1 + k1 + (b2 + k2 + b3) == SectionTail(adv, pro);
    TierLeads(b1 + k1 + b2, ProfessionalTier, pro, b3);
  }

  /** Both key lines occur in the text that puts them between fixed text. */
  lemma TailParts(b1: string, k1: string, b2: string, k2: string, b3: string)
    ensures Contains(b1 + k1 + b2 + k2 + b3, k1)
    ensures Contains(b1 + k1 + b2 + k2 + b3, k2)
  {
    var s := b1 + k1 + b2 + k2 + b3;
    assert s[|b1|..|b1| + |k1|] == k1;
    ContainsAt(s, k1, |b1|);
    var i := |b1| + |k1| + |b2|;
    assert s[i..i + |k2|] == k2;
    ContainsAt(s, k2, i);
  }

  /** The tier occurs where its key line does. */
  lemma TierLeads(pre: string, tier: string, key: string, post: string)
    ensures Contains(pre + KeyLine(tier, key) + post, tier)
  {
    var s := pre + KeyLine(tier, key) + post;
    assert s[|pre|..|pre| + |tier|] == tier;
    ContainsAt(s, tier, |pre|);
  }
}
