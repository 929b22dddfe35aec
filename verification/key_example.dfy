/**
 * A worked instance of key decoding (index.mjs line 26) on a key
 * form-encoded with no extra escaped characters.
 */
module KeyExample {
  import opened Wrappers
  import opened UriDecode

  /** An encoder that escapes only what form encoding must escape. */
  const Minimal: char -> bool := c => false

  /** The pieces of the example key, each encoded. */
  lemma EncodeIn()
    ensures EncodeKey("in", Minimal) == "in"
  {
    EncodePlain("in", Minimal);
  }

  lemma EncodeSuffix()
    ensures EncodeKey("b.csv", Minimal) == "b.csv"
  {
    EncodePlain("b.csv", Minimal);
  }

  lemma EncodeSpace()
    ensures EncodeKey(" ", Minimal) == "+"
  {
    assert EncodeKey(" ", Minimal) == EncodeKeyChar(' ', Minimal) + EncodeKey([], Minimal);
  }

  lemma EncodeFolder()
    ensures EncodeKey("folder/a", Minimal) == "folder/a"
  {
    EncodePlain("folder/a", Minimal);
  }

  lemma EncodePlusSign()
    ensures EncodeKey("+", Minimal) == "%2B"
  {
    assert Utf8Bytes('+') == [0x2B];
    assert EscapeBytes([0x2B]) == EscapeByte(0x2B) + EscapeBytes([]);
    assert EncodeKey("+", Minimal) == EncodeKeyChar('+', Minimal) + EncodeKey([], Minimal);
  }

  /**
   * `+` is turned into a space before the escapes are decoded, so `%2B`
   * survives as a plus sign.
   */
  lemma KeyWithPlusAndEscapedPlus()
    ensures DecodeKey("in%2Bfolder/a+b.csv") == Some("in+folder/a b.csv")
  {
    var k := "in+folder/a b.csv";
    assert "in" + "+" + "folder/a" + " " + "b.csv" == k;
    assert "in" + "%2B" + "folder/a" + "+" + "b.csv" == "in%2Bfolder/a+b.csv";
    EncodeIn();
    EncodeFolder();
    EncodeSuffix();
    EncodePlusSign();
    EncodeSpace();
    EncodeAppend("in", "+", Minimal);
    EncodeAppend("in" + "+", "folder/a", Minimal);
    EncodeAppend("in" + "+" + "folder/a", " ", Minimal);
    EncodeAppend("in" + "+" + "folder/a" + " ", "b.csv", Minimal);
    DecodeEncodeKey(k, Minimal);
  }
}
