/** The Python string operations the monitors rely on: `str.strip()`, `in` on strings,
    `str.startswith`, `str.split` and `str.join`. */
module Strings {

  /** Python's `str.isspace()` for one character: the characters `str.strip()` removes. */
  predicate IsSpace(c: char) {
    c == ' ' || ('\t' <= c <= '\r') || ('\U{1C}' <= c <= '\U{1F}')
    || c == '\U{85}' || c == '\U{A0}' || c == '\U{1680}'
    || ('\U{2000}' <= c <= '\U{200A}') || c == '\U{2028}' || c == '\U{2029}'
    || c == '\U{202F}' || c == '\U{205F}' || c == '\U{3000}'
  }

  predicate AllSpace(s: string) {
    forall k :: 0 <= k < |s| ==> IsSpace(s[k])
  }

  /** No whitespace at either end: the shape of everything `str.strip()` returns. */
  predicate Unpadded(s: string) {
    s == [] || (!IsSpace(s[0]) && !IsSpace(s[|s| - 1]))
  }

  function TrimLeft(s: string): string {
    if s != [] && IsSpace(s[0]) then TrimLeft(s[1..]) else s
  }

  function TrimRight(s: string): string {
    if s != [] && IsSpace(s[|s| - 1]) then TrimRight(s[..|s| - 1]) else s
  }

  /** Python's `str.strip()` with no argument. */
  function Strip(s: string): string {
    TrimRight(TrimLeft(s))
  }

  /** Trimming on the left drops a leading run of whitespace and nothing else. */
  lemma {:induction false} TrimLeftSpec(s: string)
    ensures |TrimLeft(s)| <= |s| && TrimLeft(s) == s[|s| - |TrimLeft(s)|..]
    ensures AllSpace(s[..|s| - |TrimLeft(s)|])
    ensures TrimLeft(s) == [] || !IsSpace(TrimLeft(s)[0])
  {
    if s != [] && IsSpace(s[0]) {
      TrimLeftSpec(s[1..]);
    }
  }

  /** Trimming on the right drops a trailing run of whitespace and nothing else. */
  lemma {:induction false} TrimRightSpec(s: string)
    ensures |TrimRight(s)| <= |s| && TrimRight(s) == s[..|TrimRight(s)|]
    ensures AllSpace(s[|TrimRight(s)|..])
    ensures TrimRight(s) == [] || !IsSpace(TrimRight(s)[|TrimRight(s)| - 1])
  {
    if s != [] && IsSpace(s[|s| - 1]) {
      var init := s[..|s| - 1];
      var r := TrimRight(init);
      TrimRightSpec(init);
      assert init[..|r|] == s[..|r|];
      assert s[|r|..] == init[|r|..] + [s[|s| - 1]];
    } else {
      assert s[|s|..] == [];
    }
  }

  /** The result of `str.strip()` has no whitespace at either end, it is empty exactly
      when the input is all whitespace, and an unpadded input is returned unchanged. */
  lemma StripSpec(s: string)
    ensures Unpadded(Strip(s))
    ensures Strip(s) == [] <==> AllSpace(s)
    ensures Unpadded(s) ==> Strip(s) == s
  {
    var t := TrimLeft(s);
    var r := TrimRight(t);
    TrimLeftSpec(s);
    TrimRightSpec(t);
    assert r != [] ==> r[0] == t[0];
    assert r == [] ==> AllSpace(s) by {
      if r == [] {
        assert t == [];
        assert s[..|s|] == s;
      }
    }
    if Unpadded(s) && s != [] {
      assert t == s;
    }
  }

  /** StripSpec for every string at once. */
  lemma StripSpecAll()
    ensures forall s :: Unpadded(Strip(s)) && (Strip(s) == [] <==> AllSpace(s))
                        && (Unpadded(s) ==> Strip(s) == s)
  {
    forall s ensures Unpadded(Strip(s)) && (Strip(s) == [] <==> AllSpace(s))
                     && (Unpadded(s) ==> Strip(s) == s) {
      StripSpec(s);
    }
  }

  lemma {:induction false} UnpaddedConcat(a: string, b: string)
    requires Unpadded(a) && Unpadded(b)
    ensures Unpadded(a + b)
  {
    if a != [] && b != [] {
      assert (a + b)[0] == a[0];
      assert (a + b)[|a + b| - 1] == b[|b| - 1];
    } else if a == [] {
      assert a + b == b;
    } else {
      assert a + b == a;
    }
  }

  predicate StartsWith(s: string, prefix: string) {
    |prefix| <= |s| && s[..|prefix|] == prefix
  }

  predicate EndsWith(s: string, suffix: string) {
    |suffix| <= |s| && s[|s| - |suffix|..] == suffix
  }

  predicate OccursAt(s: string, sub: string, i: nat) {
    i + |sub| <= |s| && s[i..i + |sub|] == sub
  }

  /** Python's `sub in s` on strings. */
  predicate Contains(s: string, sub: string) {
    exists i: nat | i <= |s| :: OccursAt(s, sub, i)
  }

  /** A substring of `s` is still a substring once something is put in front of `s`. */
  lemma ContainsAfterPrefix(prefix: string, s: string, sub: string)
    requires Contains(s, sub)
    ensures Contains(prefix + s, sub)
  {
    var i: nat :| i <= |s| && OccursAt(s, sub, i);
    assert (prefix + s)[|prefix| + i..|prefix| + i + |sub|] == s[i..i + |sub|];
    assert OccursAt(prefix + s, sub, |prefix| + i);
  }

  /** Python's `sep.join(parts)`: the separator goes between parts, never after the last one. */
  function Join(parts: seq<string>, sep: string): (r: string)
    ensures parts == [] ==> r == ""
    ensures |parts| > 0 ==> StartsWith(r, parts[0]) && EndsWith(r, parts[|parts| - 1])
  {
    if |parts| == 0 then ""
    else if |parts| == 1 then parts[0]
    else
      var tail := Join(parts[1..], sep);
      assert EndsWith(parts[0] + sep + tail, parts[|parts| - 1]) by {
        assert (parts[0] + sep + tail)[|parts[0] + sep + tail| - |tail|..] == tail;
      }
      parts[0] + sep + tail
  }

  lemma JoinCons(x: string, parts: seq<string>, sep: string)
    requires |parts| > 0
    ensures Join([x] + parts, sep) == x + sep + Join(parts, sep)
  {
    assert ([x] + parts)[1..] == parts;
  }

  /** No character of `s` is one of `seps`. */
  predicate Avoids(s: string, seps: set<char>) {
    forall k :: 0 <= k < |s| ==> s[k] !in seps
  }

  lemma AvoidsConcat(a: string, b: string, seps: set<char>)
    requires Avoids(a, seps) && Avoids(b, seps)
    ensures Avoids(a + b, seps)
  {
    forall k | 0 <= k < |a + b| ensures (a + b)[k] !in seps {
      if k >= |a| { assert (a + b)[k] == b[k - |a|]; }
    }
  }

  /** Split `s` at every character of `seps`: Python's `s.split(c)` when `seps == {c}`.
      There is always at least one piece, and no piece holds a separator. */
  function Split(s: string, seps: set<char>): (parts: seq<string>)
    ensures |parts| > 0
  {
    if s == [] then [""]
    else if s[0] in seps then [""] + Split(s[1..], seps)
    else
      var rest := Split(s[1..], seps);
      [[s[0]] + rest[0]] + rest[1..]
  }

  /** No piece of a split holds a separator. */
  lemma {:induction false} SplitPartsAvoid(s: string, seps: set<char>)
    ensures forall k :: 0 <= k < |Split(s, seps)| ==> Avoids(Split(s, seps)[k], seps)
  {
    if s != [] {
      var rest := Split(s[1..], seps);
      SplitPartsAvoid(s[1..], seps);
      if s[0] !in seps {
        assert Avoids([s[0]] + rest[0], seps) by {
          assert Avoids(rest[0], seps);
        }
        assert Split(s, seps) == [[s[0]] + rest[0]] + rest[1..];
      } else {
        assert Split(s, seps) == [""] + rest;
      }
    }
  }

  lemma {:induction false} SplitAvoiding(s: string, seps: set<char>)
    requires Avoids(s, seps)
    ensures Split(s, seps) == [s]
  {
    if s != [] {
      assert Avoids(s[1..], seps) by {
        forall k | 0 <= k < |s| - 1 ensures s[1..][k] !in seps {
          assert s[1..][k] == s[k + 1];
        }
      }
      SplitAvoiding(s[1..], seps);
      assert [s[0]] + s[1..] == s;
    }
  }

  /** A separator splits the text in two independent halves. */
  lemma {:induction false} SplitAround(x: string, c: char, y: string, seps: set<char>)
    requires c in seps
    ensures Split(x + [c] + y, seps) == Split(x, seps) + Split(y, seps)
  {
    if x == [] {
      assert x + [c] + y == [c] + y;
      assert ([c] + y)[1..] == y;
    } else {
      assert (x + [c] + y)[0] == x[0];
      assert (x + [c] + y)[1..] == x[1..] + [c] + y;
      SplitAround(x[1..], c, y, seps);
    }
  }

  /** A line without separator, then a newline: the line is the first piece. */
  lemma SplitLine(line: string, rest: string, seps: set<char>)
    requires '\n' in seps && Avoids(line, seps)
    ensures Split(line + "\n" + rest, seps) == [line] + Split(rest, seps)
  {
    SplitAvoiding(line, seps);
    SplitAround(line, '\n', rest, seps);
  }

  /** Splitting at one character and joining with it again gives the text back. */
  lemma {:induction false} JoinSplit(s: string, c: char)
    ensures Join(Split(s, {c}), [c]) == s
  {
    if s != [] {
      var rest := Split(s[1..], {c});
      JoinSplit(s[1..], c);
      if s[0] == c {
        assert Split(s, {c}) == [""] + rest;
        JoinCons("", rest, [c]);
        assert [c] + s[1..] == s;
      } else {
        assert Split(s, {c}) == [[s[0]] + rest[0]] + rest[1..];
        JoinHeadCons(s[0], rest, [c]);
        assert [s[0]] + s[1..] == s;
      }
    }
  }

  /** Putting a character in front of the first part puts it in front of the joined text. */
  lemma JoinHeadCons(x: char, parts: seq<string>, sep: string)
    requires |parts| > 0
    ensures Join([[x] + parts[0]] + parts[1..], sep) == [x] + Join(parts, sep)
  {
    if |parts| > 1 {
      JoinCons([x] + parts[0], parts[1..], sep);
      JoinCons(parts[0], parts[1..], sep);
      assert [parts[0]] + parts[1..] == parts;
    }
  }

  /** Five elements put in front of `rest` one at a time, innermost last, are the five
      followed by `rest`. */
  lemma PrependFive<T>(h: seq<T>, rest: seq<T>)
    requires |h| == 5
    ensures [h[0]] + ([h[1]] + ([h[2]] + ([h[3]] + ([h[4]] + rest)))) == h + rest
  {
  }
}
