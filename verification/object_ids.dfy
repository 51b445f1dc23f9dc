/**
 * MongoDB object identifiers as the services see them: `_id.toString()` yields 24
 * lower-case hexadecimal digits, and `new ObjectId(s)` accepts exactly the strings of
 * 24 hexadecimal digits in either case, throwing on anything else.
 */
module ObjectIds {
  import opened Wrappers

  predicate IsHexDigit(c: char) {
    '0' <= c <= '9' || 'a' <= c <= 'f' || 'A' <= c <= 'F'
  }

  predicate IsLowerHexDigit(c: char) {
    '0' <= c <= '9' || 'a' <= c <= 'f'
  }

  /** The strings `new ObjectId(s)` accepts without throwing. */
  predicate IsObjectIdHex(s: string) {
    |s| == 24 && forall i :: 0 <= i < |s| ==> IsHexDigit(s[i])
  }

  /** The canonical text of an identifier, as `toString()` prints it. */
  predicate IsCanonical(s: string) {
    |s| == 24 && forall i :: 0 <= i < |s| ==> IsLowerHexDigit(s[i])
  }

  /** An identifier assigned by the store, in its canonical text form. */
  type ObjectId = s: string | IsCanonical(s) witness "000000000000000000000000"

  function LowerHexDigit(c: char): (d: char)
    requires IsHexDigit(c)
    ensures IsLowerHexDigit(d)
    ensures IsLowerHexDigit(c) ==> d == c
  {
    if 'A' <= c <= 'F' then (c as int - 'A' as int + 'a' as int) as char else c
  }

  /**
   * `new ObjectId(s)`: the identifier `s` denotes, or None where the constructor throws.
   * Upper- and lower-case digits denote the same identifier.
   */
  function Parse(s: string): (r: Option<ObjectId>)
    ensures r.Some? <==> IsObjectIdHex(s)
    ensures r.Some? ==> forall i :: 0 <= i < |s| ==> r.value[i] == LowerHexDigit(s[i])
  {
    if IsObjectIdHex(s) then
      var id := seq(|s|, i requires 0 <= i < |s| => LowerHexDigit(s[i]));
      Some(id)
    else
      None
  }

  /** Reading back the text of an identifier yields that same identifier. */
  lemma ParseToString(id: ObjectId)
    ensures Parse(id) == Some(id)
  {
    assert IsObjectIdHex(id) by {
      forall i | 0 <= i < |id| ensures IsHexDigit(id[i]) {
        assert IsLowerHexDigit(id[i]);
      }
    }
    var r := Parse(id).value;
    assert |r| == |id|;
    forall i | 0 <= i < |id| ensures r[i] == id[i] {
      assert IsLowerHexDigit(id[i]);
    }
    assert r == id;
  }
}
