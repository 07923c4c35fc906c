/** The login form's email shape check, `isValidEmail`.

    The form tests the address against the anchored pattern
    `^[^\s@]+@[^\s@]+\.[^\s@]+$`. `IsValidEmail` reads that pattern
    literally, as a choice of split points; `HasShape` describes the same
    language structurally, and `PatternIffShape` proves the two agree.
 */
module Email {
  import opened Text

  /** A character the class `[^\s@]` matches. */
  predicate Plain(c: char) {
    !IsSpace(c) && c != '@'
  }

  /** Every character of `t` is matched by `[^\s@]`, so a non-empty `t`
      matches `[^\s@]+`. */
  predicate AllPlain(t: string) {
    forall k | 0 <= k < |t| :: Plain(t[k])
  }

  /** `isValidEmail`, the pattern itself: `s` splits as
      `a + "@" + b + "." + c` with `a`, `b` and `c` non-empty runs of
      characters other than white space and `@`. The `@` sits at index `i`
      and the `.` at index `j`. */
  predicate IsValidEmail(s: string) {
    exists i, j | 0 < i < j < |s| ::
      && i + 1 < j && j + 1 < |s|
      && s[i] == '@' && s[j] == '.'
      && AllPlain(s[..i]) && AllPlain(s[i + 1..j]) && AllPlain(s[j + 1..])
  }

  /** The domain part has a `.` that is neither its first nor its last
      character. */
  predicate InnerDot(d: string) {
    exists j | 0 < j < |d| - 1 :: d[j] == '.'
  }

  /** `s[i]` is the one and only `@` of `s`. */
  predicate SoleAt(s: string, i: int) {
    && 0 <= i < |s|
    && s[i] == '@'
    && forall k | 0 <= k < |s| && k != i :: s[k] != '@'
  }

  /** The structural reading of a valid address: no white space anywhere,
      exactly one `@` with something before it, and a `.` strictly inside
      the part after the `@`. */
  predicate HasShape(s: string) {
    && NoSpace(s)
    && exists i | 0 < i < |s| :: SoleAt(s, i) && InnerDot(s[i + 1..])
  }

  /** The split points of a match describe a string of the structural shape. */
  lemma PatternGivesShape(s: string, i: int, j: int)
    requires 0 < i && i + 1 < j && j + 1 < |s|
    requires s[i] == '@' && s[j] == '.'
    requires AllPlain(s[..i]) && AllPlain(s[i + 1..j]) && AllPlain(s[j + 1..])
    ensures HasShape(s)
  {
    forall k | 0 <= k < |s| && k != i && k != j
      ensures Plain(s[k])
    {
      if k < i {
        assert s[k] == s[..i][k];
      } else if k < j {
        assert s[k] == s[i + 1..j][k - i - 1];
      } else {
        assert s[k] == s[j + 1..][k - j - 1];
      }
    }
    assert SoleAt(s, i);
    var d := s[i + 1..];
    assert d[j - i - 1] == '.';
    assert InnerDot(d);
  }

  /** A string of the structural shape has split points matching the
      pattern: the sole `@` and the inner `.` of the domain. */
  lemma ShapeGivesPattern(s: string, i: int, dj: int)
    requires NoSpace(s) && 0 < i < |s| && SoleAt(s, i)
    requires 0 < dj < |s[i + 1..]| - 1 && s[i + 1..][dj] == '.'
    ensures IsValidEmail(s)
  {
    var j := i + 1 + dj;
    assert s[j] == '.';
    var a, b, c := s[..i], s[i + 1..j], s[j + 1..];
    forall k | 0 <= k < |a| ensures Plain(a[k]) {
      assert a[k] == s[k];
    }
    forall k | 0 <= k < |b| ensures Plain(b[k]) {
      assert b[k] == s[i + 1 + k];
    }
    forall k | 0 <= k < |c| ensures Plain(c[k]) {
      assert c[k] == s[j + 1 + k];
    }
    assert AllPlain(a) && AllPlain(b) && AllPlain(c);
  }

  /** The pattern accepts exactly the strings of the structural shape. */
  lemma PatternIffShape(s: string)
    ensures IsValidEmail(s) <==> HasShape(s)
  {
    if IsValidEmail(s) {
      var i, j :| 0 < i < j < |s| && i + 1 < j && j + 1 < |s|
        && s[i] == '@' && s[j] == '.'
        && AllPlain(s[..i]) && AllPlain(s[i + 1..j]) && AllPlain(s[j + 1..]);
      PatternGivesShape(s, i, j);
    }
    if HasShape(s) {
      var i :| 0 < i < |s| && SoleAt(s, i) && InnerDot(s[i + 1..]);
      var dj :| 0 < dj < |s[i + 1..]| - 1 && s[i + 1..][dj] == '.';
      ShapeGivesPattern(s, i, dj);
    }
  }

  /** Every accepted address survives the blank check: it is not white
      space only, so the form never reports a valid address as missing. */
  lemma ValidEmailNotBlank(s: string)
    ensures IsValidEmail(s) ==> !IsBlank(s) && |s| >= 5
  {
    if IsValidEmail(s) {
      var i, j :| 0 < i < j < |s| && i + 1 < j && j + 1 < |s|
        && s[i] == '@' && s[j] == '.'
        && AllPlain(s[..i]) && AllPlain(s[i + 1..j]) && AllPlain(s[j + 1..]);
      assert !IsSpace(s[i]);
    }
  }
}
