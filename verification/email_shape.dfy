/** The email shape check of the validator, the anchored pattern
    `^[^\s@]+@[^\s@]+\.[^\s@]+$`, written without a regular-expression engine.
    Three definitions of the same language are given and proved equal: the
    pattern read literally, the shape described in words, and a single-pass
    scanner. */
module EmailShape {
  import opened JsText

  /** A character the class `[^\s@]` accepts. */
  predicate IsRunChar(c: char) {
    !IsWhitespace(c) && c != '@'
  }

  /** A string `[^\s@]+` matches in full. */
  predicate IsRun(s: string) {
    |s| > 0 && forall i :: 0 <= i < |s| ==> IsRunChar(s[i])
  }

  /** The pattern read literally: the whole string splits into a run, '@', a
      run, '.', and a run. Backtracking lets the middle run hold dots of its
      own, so any dot of the domain part may be the separating one. */
  ghost predicate MatchesPattern(s: string) {
    exists at: int, dot: int ::
      && 0 < at && at + 1 < dot && dot + 1 < |s|
      && s[at] == '@' && s[dot] == '.'
      && IsRun(s[..at]) && IsRun(s[at + 1..dot]) && IsRun(s[dot + 1..])
  }

  /** No character of `s` other than position `at` is an '@'. */
  predicate OnlyAtSign(s: string, at: int) {
    forall i :: 0 <= i < |s| && i != at ==> s[i] != '@'
  }

  /** Some '.' of `d` is neither its first nor its last character. */
  predicate HasInteriorDot(d: string) {
    exists k :: 0 < k < |d| - 1 && d[k] == '.'
  }

  /** The shape in words: no whitespace anywhere, a single '@' with something
      before it, and after it a '.' that is neither first nor last. */
  predicate WellShaped(s: string) {
    && (forall i :: 0 <= i < |s| ==> !IsWhitespace(s[i]))
    && exists at :: 0 < at < |s| && s[at] == '@' && OnlyAtSign(s, at) && HasInteriorDot(s[at + 1..])
  }

  lemma PatternImpliesShape(s: string)
    requires MatchesPattern(s)
    ensures WellShaped(s)
  {
    var at: int, dot: int :|
      && 0 < at && at + 1 < dot && dot + 1 < |s|
      && s[at] == '@' && s[dot] == '.'
      && IsRun(s[..at]) && IsRun(s[at + 1..dot]) && IsRun(s[dot + 1..]);
    var a, b, c := s[..at], s[at + 1..dot], s[dot + 1..];
    forall i | 0 <= i < |s| && i != at
      ensures IsRunChar(s[i]) || i == dot
    {
      if i < at {
        assert s[i] == a[i];
      } else if at < i < dot {
        assert s[i] == b[i - at - 1];
      } else if dot < i {
        assert s[i] == c[i - dot - 1];
      }
    }
    assert OnlyAtSign(s, at);
    var d := s[at + 1..];
    assert d[dot - at - 1] == '.';
    assert HasInteriorDot(d);
  }

  lemma ShapeImpliesPattern(s: string)
    requires WellShaped(s)
    ensures MatchesPattern(s)
  {
    var at :| 0 < at < |s| && s[at] == '@' && OnlyAtSign(s, at) && HasInteriorDot(s[at + 1..]);
    var d := s[at + 1..];
    var k :| 0 < k < |d| - 1 && d[k] == '.';
    var dot := at + 1 + k;
    assert s[dot] == '.';
    forall i | 0 <= i < |s| && i != at
      ensures IsRunChar(s[i])
    {
    }
    var a, b, c := s[..at], s[at + 1..dot], s[dot + 1..];
    assert forall i :: 0 <= i < |a| ==> a[i] == s[i];
    assert forall i :: 0 <= i < |b| ==> b[i] == s[at + 1 + i];
    assert forall i :: 0 <= i < |c| ==> c[i] == s[dot + 1 + i];
    assert IsRun(a) && IsRun(b) && IsRun(c);
  }

  /** The shape described in words is exactly the language of the pattern. */
  lemma PatternIffShape(s: string)
    ensures MatchesPattern(s) <==> WellShaped(s)
  {
    if MatchesPattern(s) {
      PatternImpliesShape(s);
    }
    if WellShaped(s) {
      ShapeImpliesPattern(s);
    }
  }

  /** A single left-to-right pass deciding the shape: it remembers whether
      whitespace was seen, where the first '@' is, whether a second '@'
      followed, and whether a dot strictly inside the domain part was seen. */
  method CheckShape(s: string) returns (ok: bool)
    ensures ok <==> WellShaped(s)
    ensures ok <==> MatchesPattern(s)
  {
    var spaceFree := true;
    var at := -1;
    var extraAt := false;
    var dotSeen := false;
    var i := 0;
    while i < |s|
      invariant 0 <= i <= |s|
      invariant spaceFree <==> forall j :: 0 <= j < i ==> !IsWhitespace(s[j])
      invariant -1 <= at < i
      invariant at == -1 ==> forall j :: 0 <= j < i ==> s[j] != '@'
      invariant at >= 0 ==> s[at] == '@' && forall j :: 0 <= j < at ==> s[j] != '@'
      invariant extraAt <==> at >= 0 && exists j :: at < j < i && s[j] == '@'
      invariant dotSeen <==> at >= 0 && exists j :: at + 1 < j < i && j < |s| - 1 && s[j] == '.'
    {
      var c := s[i];
      if IsWhitespace(c) {
        spaceFree := false;
      }
      if c == '@' {
        if at == -1 {
          at := i;
        } else {
          extraAt := true;
        }
      } else if c == '.' && at >= 0 && at + 1 < i && i < |s| - 1 {
        dotSeen := true;
      }
      i := i + 1;
    }
    ok := spaceFree && at > 0 && !extraAt && dotSeen;
    if ok {
      assert OnlyAtSign(s, at);
      var j :| at + 1 < j < |s| && j < |s| - 1 && s[j] == '.';
      assert s[at + 1..][j - at - 1] == '.';
    }
    PatternIffShape(s);
  }
}
