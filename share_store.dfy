/** `read_share()` (node3/app.py lines 50-59): the node's own share, read
    from its share file. The file's text is an input: `None` when the file
    does not exist. */
module ShareStore {
  import opened Wrappers
  import opened Bytes
  import opened PyText
  import opened Hex

  /** A share, never empty, when the stripped text is non-blank valid hex
      (see ReadShareAccepts). */
  function ReadShare(file: Option<string>): (own: Option<Bytes>)
    ensures own.Some? ==> own.value != []
  {
    if file.None? then None
    else
      var hexs := Strip(file.value);
      if hexs == [] then None else Unhexlify(hexs)
  }

  /** `read_share()` gives a share exactly when the file exists and its
      stripped text is non-blank valid hex, two digits per byte; `None` when
      the file is missing, blank, or not hex (odd length or a non-hex digit). */
  lemma ReadShareAccepts(file: Option<string>)
    ensures ReadShare(file).Some? <==> file.Some? && Strip(file.value) != [] && IsHex(Strip(file.value))
    ensures ReadShare(file).Some? ==> 2 * |ReadShare(file).value| == |Strip(file.value)|
  {
  }

  /** Python truthiness of `read_share()`'s result (`if own:`, `bool(own)`,
      `if not s:`): `None` and empty bytes are both false. */
  predicate Truthy(own: Option<Bytes>) {
    own.Some? && own.value != []
  }

  lemma HexIsStripped(b: Bytes)
    ensures IsStripped(Hexlify(b))
  {
    var s := Hexlify(b);
    if s != [] {
      assert IsLowerHexDigit(s[0]) && IsLowerHexDigit(s[|s| - 1]);
    }
  }

  /** A share file holding the hex of a non-empty share, with any whitespace
      around it (a trailing newline, say), reads back as that share. */
  lemma ReadHexShareFile(b: Bytes, before: string, after: string)
    requires b != []
    requires AllSpace(before) && AllSpace(after)
    ensures ReadShare(Some(before + Hexlify(b) + after)) == Some(b)
  {
    HexIsStripped(b);
    StripPadded(before, Hexlify(b), after);
    HexRoundTrip(b);
  }

  /** A share file holding only whitespace reads as no share. */
  lemma ReadBlankShareFile(text: string)
    requires AllSpace(text)
    ensures ReadShare(Some(text)) == None
  {
    StripPadded(text, [], []);
    assert text + [] + [] == text;
  }
}
