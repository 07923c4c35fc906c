/** White space and trimming, as the login form sees them.

    `String.prototype.trim` and the regular-expression class `\s` are defined
    over the same characters (the ECMAScript WhiteSpace and LineTerminator
    productions), so one predicate serves both the blank-field check and the
    email shape check.
 */
module Text {

  /** The characters ECMAScript treats as white space or line terminators:
      tab, line feed, vertical tab, form feed, carriage return, space,
      no-break space, the Unicode space separators, the line and paragraph
      separators and the byte-order mark. */
  predicate IsSpace(c: char) {
    var n := c as int;
    || n == 0x09 || n == 0x0A || n == 0x0B || n == 0x0C || n == 0x0D
    || n == 0x20 || n == 0xA0 || n == 0x1680
    || (0x2000 <= n <= 0x200A)
    || n == 0x2028 || n == 0x2029 || n == 0x202F || n == 0x205F
    || n == 0x3000 || n == 0xFEFF
  }

  /** Every character of `s` is white space (vacuously true of ""). */
  predicate AllSpace(s: string) {
    forall k | 0 <= k < |s| :: IsSpace(s[k])
  }

  /** No character of `s` is white space. */
  predicate NoSpace(s: string) {
    forall k | 0 <= k < |s| :: !IsSpace(s[k])
  }

  /** Drops the leading white space of `s`: the result is the suffix of `s`
      left after a run of white space, and does not itself start with any. */
  function TrimStart(s: string): (r: string)
    ensures |r| <= |s| && r == s[|s| - |r|..]
    ensures AllSpace(s[..|s| - |r|])
    ensures r == [] || !IsSpace(r[0])
  {
    if |s| > 0 && IsSpace(s[0]) then
      var r := TrimStart(s[1..]);
      assert s[..|s| - |r|] == [s[0]] + s[1..][..|s| - 1 - |r|];
      r
    else
      s
  }

  /** Drops the trailing white space of `s`: the result is the prefix of `s`
      left before a run of white space, and does not itself end with any. */
  function TrimEnd(s: string): (r: string)
    ensures |r| <= |s| && r == s[..|r|]
    ensures AllSpace(s[|r|..])
    ensures r == [] || !IsSpace(r[|r| - 1])
  {
    if |s| > 0 && IsSpace(s[|s| - 1]) then
      var r := TrimEnd(s[..|s| - 1]);
      assert s[|r|..] == s[..|s| - 1][|r|..] + [s[|s| - 1]];
      r
    else
      s
  }

  /** `String.prototype.trim`: `s` without its leading and trailing white
      space. It is empty exactly when `s` consists of white space only, and a
      non-empty result neither starts nor ends with white space. */
  function Trim(s: string): (r: string)
    ensures r == [] <==> AllSpace(s)
    ensures r != [] ==> !IsSpace(r[0]) && !IsSpace(r[|r| - 1])
  {
    var t := TrimStart(s);
    var r := TrimEnd(t);
    assert r != [] ==> r[0] == t[0];
    if r == [] then
      assert t == [];
      assert AllSpace(s) by {
        assert s == s[..|s| - |t|];
      }
      r
    else
      assert |t| > 0;
      assert !AllSpace(s) by {
        assert s[|s| - |t|] == t[0];
      }
      r
  }

  /** JavaScript's `!x.trim()`: the field holds nothing but white space. */
  predicate IsBlank(s: string) {
    Trim(s) == []
  }
}
