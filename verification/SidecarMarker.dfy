/** The write-ahead marker of the Proton sidecar: the original DLL override, as text in a file. */
module SidecarMarker {
  import opened Prelude
  import opened Text

  const HEADER: string := "tractor-beam-winmm-sidecar-v2"
  const KEY_EXISTED: string := "key_existed="
  const ORIGINAL_OVERRIDE: string := "original_override="
  const NATIVE_OVERRIDE: string := "native,builtin"

  datatype OriginalOverride = OriginalOverride(keyExisted: bool, value: Option<string>)

  function EncodedValue(value: Option<string>): string {
    match value
    case None => "-"
    case Some(text) => HexEncode(Utf8(text))
  }

  function MarkerText(original: OriginalOverride): string {
    HEADER + "\n"
    + (KEY_EXISTED + (if original.keyExisted then "1" else "0") + "\n"
       + (ORIGINAL_OVERRIDE + EncodedValue(original.value) + "\n" + ""))
  }

  function ParseValue(encoded: string): Option<Option<string>> {
    if encoded == "-" then Some(None)
    else match HexDecode(encoded)
      case None => None
      case Some(bytes) =>
        match FromUtf8(bytes)
        case None => None
        case Some(text) => Some(Some(text))
  }

  function ParseMarker(contents: string): Option<OriginalOverride> {
    var lines := Lines(contents);
    if |lines| != 3 || lines[0] != HEADER then None
    else
      var flag, encoded := StripPrefix(lines[1], KEY_EXISTED), StripPrefix(lines[2], ORIGINAL_OVERRIDE);
      if flag != Some("0") && flag != Some("1") then None
      else if encoded.None? then None
      else match ParseValue(encoded.value)
        case None => None
        case Some(value) => Some(OriginalOverride(flag == Some("1"), value))
  }

  lemma EncodedValueParses(value: Option<string>)
    ensures ParseValue(EncodedValue(value)) == Some(value)
    ensures '\n' !in EncodedValue(value) && '\r' !in EncodedValue(value)
  {
    match value
    case None =>
    case Some(text) =>
      Utf8RoundTrips(text);
      HexRoundTrips(Utf8(text));
      assert HexText(EncodedValue(value)) && EncodedValue(value) != "-";
  }

  predicate OneLine(s: string) { '\n' !in s && '\r' !in s }

  lemma OneLineJoins(prefix: string, text: string)
    requires OneLine(prefix) && OneLine(text)
    ensures OneLine(prefix + text)
    ensures StripPrefix(prefix + text, prefix) == Some(text)
  {
  }

  lemma ThreeLines(a: string, b: string, c: string)
    requires OneLine(a) && OneLine(b) && OneLine(c)
    ensures Lines(a + "\n" + (b + "\n" + (c + "\n" + ""))) == [a, b, c]
  {
    LinesStep(c, "");
    LinesStep(b, c + "\n" + "");
    LinesStep(a, b + "\n" + (c + "\n" + ""));
  }

  lemma ParsesThreeLines(contents: string, flag: string, encoded: string, value: Option<string>)
    requires Lines(contents) == [HEADER, KEY_EXISTED + flag, ORIGINAL_OVERRIDE + encoded]
    requires flag == "0" || flag == "1"
    requires ParseValue(encoded) == Some(value)
    ensures ParseMarker(contents) == Some(OriginalOverride(flag == "1", value))
  {
    assert StripPrefix(KEY_EXISTED + flag, KEY_EXISTED) == Some(flag);
    assert StripPrefix(ORIGINAL_OVERRIDE + encoded, ORIGINAL_OVERRIDE) == Some(encoded);
  }

  /** Whatever original override was recorded, reading the marker returns exactly it. */
  lemma MarkerRoundTrips(original: OriginalOverride)
    ensures ParseMarker(MarkerText(original)) == Some(original)
  {
    hide Lines, ParseValue, ParseMarker, StripPrefix, EncodedValue;
    var flag := if original.keyExisted then "1" else "0";
    var encoded := EncodedValue(original.value);
    var second, third := KEY_EXISTED + flag, ORIGINAL_OVERRIDE + encoded;
    EncodedValueParses(original.value);
    ConstantsAreOneLine(flag);
    OneLineJoins(KEY_EXISTED, flag);
    OneLineJoins(ORIGINAL_OVERRIDE, encoded);
    assert MarkerText(original) == HEADER + "\n" + (second + "\n" + (third + "\n" + ""));
    hide OneLine, MarkerText;
    ThreeLines(HEADER, second, third);
    ParsesThreeLines(MarkerText(original), flag, encoded, original.value);
  }

  lemma ConstantsAreOneLine(flag: string)
    requires flag == "0" || flag == "1"
    ensures OneLine(HEADER) && OneLine(KEY_EXISTED) && OneLine(ORIGINAL_OVERRIDE) && OneLine(flag)
  {
    assert forall i :: 0 <= i < |HEADER| ==> HEADER[i] >= '-';
  }

  /** The marker's text, letter by letter. */
  lemma MarkerIsThisText(original: OriginalOverride)
    ensures MarkerText(original) ==
              "tractor-beam-winmm-sidecar-v2\nkey_existed=" + (if original.keyExisted then "1" else "0")
              + "\noriginal_override="
              + (if original.value.None? then "-" else HexEncode(Utf8(original.value.value))) + "\n"
  {
    hide HexEncode, Utf8;
    var flag := if original.keyExisted then "1" else "0";
    Rejoined(HEADER, KEY_EXISTED, flag, ORIGINAL_OVERRIDE, EncodedValue(original.value), "\n");
    LiteralParts();
  }

  lemma LiteralParts()
    ensures HEADER + "\n" + KEY_EXISTED == "tractor-beam-winmm-sidecar-v2\nkey_existed="
    ensures "\n" + ORIGINAL_OVERRIDE == "\noriginal_override="
  {
  }

  lemma Rejoined(header: string, key: string, flag: string, override: string, value: string, n: string)
    ensures header + n + (key + flag + n + (override + value + n + "")) ==
            (header + n + key) + flag + (n + override) + value + n
  {
    assert override + value + n + "" == override + value + n;
  }

  /** A file is read as a marker if and only if it has exactly the three lines of one; anything else is somebody
      else's. */
  lemma MarkerIsExact(contents: string, original: OriginalOverride)
    ensures ParseMarker(contents) == Some(original) <==>
              exists flag, encoded ::
                && Lines(contents) ==
                   ["tractor-beam-winmm-sidecar-v2", "key_existed=" + flag, "original_override=" + encoded]
                && flag == (if original.keyExisted then "1" else "0")
                && Writes(original.value, encoded)
  {
    hide Lines, HexDecode, FromUtf8;
    if ParseMarker(contents) == Some(original) {
      var lines := Lines(contents);
      var flag, encoded := StripPrefix(lines[1], KEY_EXISTED).value, StripPrefix(lines[2], ORIGINAL_OVERRIDE).value;
      StripIsJoin(lines[1], KEY_EXISTED);
      StripIsJoin(lines[2], ORIGINAL_OVERRIDE);
      assert lines == [HEADER, KEY_EXISTED + flag, ORIGINAL_OVERRIDE + encoded];
      assert Writes(original.value, encoded);
    }
    if flag, encoded :|
      && Lines(contents) == [HEADER, KEY_EXISTED + flag, ORIGINAL_OVERRIDE + encoded]
      && flag == (if original.keyExisted then "1" else "0") && Writes(original.value, encoded) {
      ParsesThreeLines(contents, flag, encoded, original.value);
    }
  }

  /** The text stands for the value: a dash for none, otherwise the hexadecimal digits of its UTF-8 bytes. */
  predicate Writes(value: Option<string>, encoded: string) {
    match value
    case None => encoded == "-"
    case Some(text) =>
      encoded != "-" && HexDecode(encoded).Some? && FromUtf8(HexDecode(encoded).value) == Some(text)
  }

  lemma WritesIsExact(value: Option<string>, encoded: string)
    ensures Writes(value, encoded) <==>
              match value
              case None => encoded == "-"
              case Some(text) => HexOf(encoded, Utf8(text))
  {
    if value.Some? {
      HexDecodeIsExact(encoded, Utf8(value.value));
      if HexDecode(encoded).Some? { FromUtf8IsExact(HexDecode(encoded).value, value.value); }
      hide HexDecode, FromUtf8, Utf8;
    }
  }

  lemma StripIsJoin(s: string, prefix: string)
    requires StripPrefix(s, prefix).Some?
    ensures s == prefix + StripPrefix(s, prefix).value
  {
  }

  lemma HexOfNothing()
    ensures HexEncode([]) == ""
  {
  }

  /** The hexadecimal printer as the loop it is. */
  method HexEncodeText(value: string) returns (encoded: string)
    ensures encoded == HexEncode(Utf8(value))
    ensures HexDecode(encoded) == Some(Utf8(value))
  {
    hide HexEncode, HexChar, HexDecode, Utf8;
    var bytes := Utf8(value);
    encoded := "";
    assert bytes[0..] == bytes && "" + HexEncode(bytes) == HexEncode(bytes);
    for i := 0 to |bytes|
      invariant encoded + HexEncode(bytes[i..]) == HexEncode(bytes)
    {
      var byte := bytes[i];
      assert bytes[i..] == [byte] + bytes[i + 1..];
      HexGrows(encoded, byte, bytes[i + 1..]);
      encoded := encoded + [HexChar(byte / 16)];
      encoded := encoded + [HexChar(byte % 16)];
    }
    assert bytes[|bytes|..] == [] && HexEncode([]) == "" by { HexOfNothing(); }
    assert encoded + "" == encoded;
    HexRoundTrips(bytes);
  }
}
