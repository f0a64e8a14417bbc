/** BSON ObjectIds as they cross the HTTP boundary: 24 hexadecimal characters. `str(ObjectId(s))`
    renders the id in lower case, so an id written with upper-case digits names the same document. */
module ObjectIds {
  import opened PyText

  predicate IsHexDigit(c: char) {
    '0' <= c <= '9' || 'a' <= c <= 'f' || 'A' <= c <= 'F'
  }

  /** `ObjectId.is_valid(s)` for a `str` argument, on strings of 24 hexadecimal digits; the whitespace
      that `bytes.fromhex` skips inside such a string is not modelled. */
  predicate IsValid(s: string) {
    |s| == 24 && forall i :: 0 <= i < |s| ==> IsHexDigit(s[i])
  }

  /** Which strings pass the check: 24 hexadecimal digits in either case; one digit short, a non-hex
      letter, or the empty string do not. */
  lemma ValidityExamples()
    ensures IsValid("507f1f77bcf86cd799439011") && IsValid("507F1F77BCF86CD799439011")
    ensures !IsValid("507f1f77bcf86cd79943901") && !IsValid("507f1f77bcf86cd79943901g") && !IsValid("")
  {
    assert "507f1f77bcf86cd79943901g"[23] == 'g';
  }

  /** The rendering `str(oid)` gives: 24 lower-case hexadecimal characters. */
  predicate IsCanonical(s: string) {
    |s| == 24 && forall i :: 0 <= i < |s| ==> '0' <= s[i] <= '9' || 'a' <= s[i] <= 'f'
  }

  /** An ObjectId, represented by its canonical rendering. */
  type ObjectId = s: string | IsCanonical(s) witness "000000000000000000000000"

  /** `str(ObjectId(s))`: the id a valid string denotes. */
  function Parse(s: string): (id: ObjectId)
    requires IsValid(s)
    ensures forall i :: 0 <= i < 24 ==> id[i] == LowerChar(s[i])
  {
    Lower(s)
  }

  /** Rendering an id and parsing the rendering gives the id back. */
  lemma ParseRendering(id: ObjectId)
    ensures IsValid(id) && Parse(id) == id
  {
    assert forall i :: 0 <= i < 24 ==> LowerChar(id[i]) == id[i];
  }
}
