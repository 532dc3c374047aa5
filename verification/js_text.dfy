/** The few pieces of JavaScript string semantics the contact-form script
    leans on: which characters the regular-expression class `\s` matches,
    when an optional string is truthy, and `Array.prototype.join`. Strings are
    sequences of Unicode scalar values. */
module JsText {

  /** A value that may be `undefined` (`None`). */
  datatype Option<+T> = None | Some(value: T)

  /** The characters `\s` matches in an ECMAScript regular expression: the
      WhiteSpace and LineTerminator code points of ECMA-262 (tab, line feed,
      vertical tab, form feed, carriage return, the space separators of
      category Zs, the line and paragraph separators, and the byte-order mark). */
  predicate IsWhitespace(c: char) {
    || c == '\t' || c == '\n' || c == '\U{000B}' || c == '\U{000C}' || c == '\r'
    || c == ' ' || c == '\U{00A0}' || c == '\U{1680}'
    || ('\U{2000}' <= c <= '\U{200A}')
    || c == '\U{2028}' || c == '\U{2029}' || c == '\U{202F}' || c == '\U{205F}'
    || c == '\U{3000}' || c == '\U{FEFF}'
  }

  /** JavaScript truthiness of a value that is a string or `undefined`:
      only a present, non-empty string is truthy. */
  predicate Truthy(s: Option<string>) {
    s.Some? && s.value != ""
  }

  /** `parts.join(sep)`: the parts in order with `sep` between neighbours;
      the empty array joins to the empty string. */
  function Join(parts: seq<string>, sep: string): string {
    if |parts| == 0 then ""
    else if |parts| == 1 then parts[0]
    else parts[0] + sep + Join(parts[1..], sep)
  }

  /** The separator the submit handler joins validation errors with. */
  const ListSeparator: string := ", "

  /** `s` has no occurrence of the two-character separator ", ". */
  predicate FreeOfSeparator(s: string) {
    forall i :: 0 <= i < |s| - 1 ==> !(s[i] == ',' && s[i + 1] == ' ')
  }

  /** Cuts `s` at every ", ", `piece` being the text gathered since the last
      cut. This is the inverse of joining with `ListSeparator`. */
  function SplitFrom(s: string, piece: string): (r: seq<string>)
    ensures |r| > 0
    decreases |s|
  {
    if |s| == 0 then [piece]
    else if |s| >= 2 && s[0] == ',' && s[1] == ' ' then [piece] + SplitFrom(s[2..], "")
    else SplitFrom(s[1..], piece + [s[0]])
  }

  function Split(s: string): seq<string> {
    SplitFrom(s, "")
  }

  /** Scanning across a part that holds no separator only extends the current
      piece, provided a trailing ',' of the part is not followed by a space. */
  lemma {:induction false} SplitAcrossPart(p: string, rest: string, piece: string)
    requires FreeOfSeparator(p)
    requires |p| > 0 && p[|p| - 1] == ',' && |rest| > 0 ==> rest[0] != ' '
    ensures SplitFrom(p + rest, piece) == SplitFrom(rest, piece + p)
    decreases |p|
  {
    if |p| == 0 {
      assert p + rest == rest;
      assert piece + p == piece;
    } else {
      var s := p + rest;
      assert s[0] == p[0];
      if |p| >= 2 {
        assert s[1] == p[1];
        assert !(p[0] == ',' && p[1] == ' ');
      }
      assert !(|s| >= 2 && s[0] == ',' && s[1] == ' ');
      assert s[1..] == p[1..] + rest;
      var p' := p[1..];
      assert FreeOfSeparator(p') by {
        forall i | 0 <= i < |p'| - 1
          ensures !(p'[i] == ',' && p'[i + 1] == ' ')
        {
          assert p'[i] == p[i + 1] && p'[i + 1] == p[i + 2];
        }
      }
      SplitAcrossPart(p', rest, piece + [p[0]]);
      assert piece + [p[0]] + p' == piece + p;
    }
  }

  /** Round trip: splitting a joined list gives back the list, as long as no
      part contains the separator itself. */
  lemma {:induction false} SplitJoin(parts: seq<string>)
    requires |parts| > 0
    requires forall i :: 0 <= i < |parts| ==> FreeOfSeparator(parts[i])
    ensures Split(Join(parts, ListSeparator)) == parts
    decreases |parts|
  {
    if |parts| == 1 {
      SplitAcrossPart(parts[0], "", "");
      assert parts[0] + "" == parts[0];
      assert "" + parts[0] == parts[0];
    } else {
      var tail := Join(parts[1..], ListSeparator);
      var rest := ListSeparator + tail;
      assert Join(parts, ListSeparator) == parts[0] + rest;
      SplitAcrossPart(parts[0], rest, "");
      assert "" + parts[0] == parts[0];
      assert rest[2..] == tail;
      SplitJoin(parts[1..]);
      assert [parts[0]] + parts[1..] == parts;
    }
  }

  /** Joining non-empty parts never yields the empty string. */
  lemma {:induction false} JoinNonEmpty(parts: seq<string>, sep: string)
    requires |parts| > 0
    requires forall p :: p in parts ==> p != ""
    ensures Join(parts, sep) != ""
  {
    assert parts[0] in parts;
    if |parts| > 1 {
      assert |Join(parts, sep)| >= |parts[0]|;
    }
  }

  /** Concatenating two separator-free strings creates no separator unless the
      first ends with ',' and the second starts with a space. */
  lemma ConcatFreeOfSeparator(a: string, b: string)
    requires FreeOfSeparator(a) && FreeOfSeparator(b)
    requires |a| > 0 && |b| > 0 ==> !(a[|a| - 1] == ',' && b[0] == ' ')
    ensures FreeOfSeparator(a + b)
  {
    var s := a + b;
    forall i | 0 <= i < |s| - 1
      ensures !(s[i] == ',' && s[i + 1] == ' ')
    {
      if i + 1 < |a| {
        assert s[i] == a[i] && s[i + 1] == a[i + 1];
      } else if i >= |a| {
        assert s[i] == b[i - |a|] && s[i + 1] == b[i - |a| + 1];
      } else {
        assert s[i] == a[|a| - 1] && s[i + 1] == b[0];
      }
    }
  }
}
