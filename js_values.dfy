/** The JavaScript value notions the controllers and the audit log share:
    an optional field, the truthiness of a string taken from a request, and
    the length JavaScript reports for a string. */
module JsValues {

  datatype Option<+T> = None | Some(value: T) {
    function GetOr(default: T): T {
      if Some? then value else default
    }
  }

  /** JavaScript truthiness of an optional string taken from a request:
      an absent field and the empty string are both falsy. */
  predicate Present(field: Option<string>) {
    field.Some? && field.value != ""
  }

  /** A character outside the Basic Multilingual Plane, which UTF-16
      stores as a surrogate pair. */
  predicate Astral(c: char) {
    c as int >= 0x1_0000
  }

  /** JavaScript's `s.length`: the number of UTF-16 code units, so a
      character outside the Basic Multilingual Plane counts twice. */
  function Utf16Length(s: string): (n: nat)
    ensures |s| <= n <= 2 * |s|
    ensures n == |s| <==> forall i :: 0 <= i < |s| ==> !Astral(s[i])
    ensures n == 2 * |s| <==> forall i :: 0 <= i < |s| ==> Astral(s[i])
  {
    if s == [] then 0
    else
      var rest := Utf16Length(s[1..]);
      assert forall i :: 1 <= i < |s| ==> s[i] == s[1..][i - 1];
      (if Astral(s[0]) then 2 else 1) + rest
  }

  /** Five emoji are five characters but ten code units, and four emoji
      and a letter make nine. */
  lemma SurrogatePairsCountTwice()
    ensures |"\U{1F600}\U{1F600}\U{1F600}\U{1F600}\U{1F600}"| == 5
    ensures Utf16Length("\U{1F600}\U{1F600}\U{1F600}\U{1F600}\U{1F600}") == 10
    ensures |"\U{1F600}\U{1F600}\U{1F600}\U{1F600}a"| == 5
    ensures Utf16Length("\U{1F600}\U{1F600}\U{1F600}\U{1F600}a") == 9
  {
  }
}
