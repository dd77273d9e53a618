/** The version record returned by the classifier (`src/models.rs`). */
module Models {
  import opened Text

  const LegacyLabel: string := "< 3.9.6"
  const V396PlusLabel: string := "≥ 3.9.6"
  const V45Label: string := "4.5"
  const V46Label: string := "4.6+"

  /** `FinalShellVersion`: a version label and whether it is the legacy one. */
  datatype FinalShellVersion = FinalShellVersion(version: string, isLegacy: bool)

  predicate IsKnownLabel(name: string) {
    name == LegacyLabel || name == V396PlusLabel || name == V45Label || name == V46Label
  }

  /** `FinalShellVersion::detect_version`: an ordered first-match rule list
      over the UTF-8 byte length of the machine code and whether it contains
      a dash. The result is always one of the four labels, and only codes
      shorter than 15 bytes are legacy. */
  function DetectVersion(machineCode: string): (v: FinalShellVersion)
    ensures IsKnownLabel(v.version)
    ensures v.isLegacy <==> v.version == LegacyLabel
    ensures v.isLegacy <==> ByteLen(machineCode) < 15
  {
    var n := ByteLen(machineCode);
    if n < 15 then
      FinalShellVersion(LegacyLabel, true)
    else if '-' in machineCode && n > 25 then
      FinalShellVersion(V46Label, false)
    else if n > 20 then
      FinalShellVersion(V396PlusLabel, false)
    else
      FinalShellVersion(V45Label, false)
  }

  /** The four labels partition the inputs into regions that no longer
      depend on the order of the rules. In particular a dash-free code of 26
      or more bytes is "≥ 3.9.6", never "4.6+", and 15 to 20 bytes give
      "4.5" whether or not there are dashes. */
  lemma DetectVersionRegions(machineCode: string)
    ensures var v := DetectVersion(machineCode); var n := ByteLen(machineCode);
      && (v.version == LegacyLabel <==> n < 15)
      && (v.version == V46Label <==> '-' in machineCode && n > 25)
      && (v.version == V396PlusLabel <==> n > 20 && !('-' in machineCode && n > 25))
      && (v.version == V45Label <==> 15 <= n <= 20)
  {
  }

  /** A code is only "4.6+" if it contains a dash. */
  lemma DashFreeNeverV46(machineCode: string)
    requires '-' !in machineCode
    ensures DetectVersion(machineCode).version != V46Label
    ensures ByteLen(machineCode) > 20 ==> DetectVersion(machineCode).version == V396PlusLabel
  {
  }

  /** The two classifications the source's unit test checks. */
  lemma DetectVersionExamples()
    ensures DetectVersion("ABC123") == FinalShellVersion(LegacyLabel, true)
    ensures DetectVersion("ABC123DEF456GHI789JKL012") == FinalShellVersion(V396PlusLabel, false)
  {
    assert IsAscii("ABC123");
    assert IsAscii("ABC123DEF456GHI789JKL012");
  }
}
