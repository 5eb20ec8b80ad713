/** utils/machineUtils.ts: classify a coffee-machine serial number into one of
    three machine families, or reject it. */
module MachineUtils {
  import opened Strings
  import opened Wrappers

  const Zenius: string := "Zenius ZN 100 PRO"
  const Gemini: string := "Gemini CS 203/223"
  const Momento: string := "Nespresso Momento"

  datatype MachineInfo = MachineInfo(model: string, serial: string)

  /** `serial.replace(/\s+/g, '').toUpperCase()`. */
  function Sanitize(serial: string): string
  {
    ToUpper(RemoveSpaces(serial))
  }

  /** The model-code table, looked up by the character at index 5. */
  function ModelForCode(code: char): Option<string>
  {
    match code
    case 'Z' => Some(Zenius)
    case 'C' => Some(Gemini)
    case 'G' => Some(Gemini)
    case 'M' => Some(Momento)
    case 'N' => Some(Momento)
    case 'E' => Some(Momento)
    case _ => None
  }

  /** `parseSerialNumber`: `None` for an empty or (once sanitised) too short
      serial; otherwise the index-5 code decides, and only an unknown code
      falls back to looking for `CS200`/`CS220` and then `ZN100` anywhere. */
  function ParseSerialNumber(serial: string): (r: Option<MachineInfo>)
    ensures r.Some? ==> r.value.serial == Sanitize(serial)
    ensures r.Some? ==> r.value.model in {Zenius, Gemini, Momento}
    ensures r.Some? ==> |r.value.serial| >= 6
  {
    if serial == [] then None
    else
      var s := Sanitize(serial);
      if |s| < 6 then None
      else match ModelForCode(s[5])
        case Some(model) => Some(MachineInfo(model, s))
        case None =>
          if Contains(s, "CS200") || Contains(s, "CS220") then Some(MachineInfo(Gemini, s))
          else if Contains(s, "ZN100") then Some(MachineInfo(Zenius, s))
          else None
  }

  /** Sanitising removes every whitespace character and leaves no lower-case ASCII letter. */
  lemma SanitizeShape(serial: string)
    ensures forall i :: 0 <= i < |Sanitize(serial)| ==>
              !IsJsSpace(Sanitize(serial)[i]) && !('a' <= Sanitize(serial)[i] <= 'z')
  {
  }

  /** Sanitising twice is sanitising once. */
  lemma SanitizeIdempotent(serial: string)
    ensures Sanitize(Sanitize(serial)) == Sanitize(serial)
  {
    var s := Sanitize(serial);
    assert forall i :: 0 <= i < |s| ==> !IsJsSpace(s[i]);
    RemoveSpacesOfClean(s);
  }

  /** Too short after sanitising, including empty or all-whitespace input: `None`. */
  lemma ShortIsRejected(serial: string)
    requires |Sanitize(serial)| < 6
    ensures ParseSerialNumber(serial) == None
  {
  }

  /** A mapped code at index 5 decides the model, whatever substrings the
      serial also holds. */
  lemma CodeDecides(serial: string)
    requires |Sanitize(serial)| >= 6 && ModelForCode(Sanitize(serial)[5]).Some?
    ensures ParseSerialNumber(serial)
            == Some(MachineInfo(ModelForCode(Sanitize(serial)[5]).value, Sanitize(serial)))
  {
  }

  /** With an unmapped code, the substring fallback decides, `CS200`/`CS220`
      before `ZN100`, and nothing else is accepted. */
  lemma FallbackDecides(serial: string)
    requires |Sanitize(serial)| >= 6 && ModelForCode(Sanitize(serial)[5]).None?
    ensures var s := Sanitize(serial);
            ParseSerialNumber(serial)
            == if Contains(s, "CS200") || Contains(s, "CS220") then Some(MachineInfo(Gemini, s))
               else if Contains(s, "ZN100") then Some(MachineInfo(Zenius, s))
               else None
  {
  }

  /** Re-parsing the sanitised serial of an accepted result gives the same result. */
  lemma {:induction false} ReparseIsStable(serial: string)
    requires ParseSerialNumber(serial).Some?
    ensures ParseSerialNumber(ParseSerialNumber(serial).value.serial) == ParseSerialNumber(serial)
  {
    SanitizeIdempotent(serial);
  }
}
