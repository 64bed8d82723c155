/**
 * `String.prototype.split` with a one-character separator and
 * `Array.prototype.join`, as index.js and its libraries use them.
 */
module JsStrings {

  /**
   * `parts.join(sep)`: the parts with one separator between neighbours, so the
   * text starts with the first part, followed by a separator when more come.
   */
  function Join(parts: seq<string>, sep: char): (s: string)
    ensures |parts| >= 1 ==> parts[0] <= s
    ensures |parts| >= 2 ==> |parts[0]| < |s| && s[|parts[0]|] == sep
    decreases |parts|
  {
    if |parts| == 0 then ""
    else if |parts| == 1 then parts[0]
    else parts[0] + [sep] + Join(parts[1..], sep)
  }

  /**
   * `s.split(sep)`: the maximal separator-free pieces of `s`, in order.
   * Like JavaScript, the empty string splits into one empty piece.
   */
  function Split(s: string, sep: char): (parts: seq<string>)
    ensures |parts| >= 1
    ensures forall i :: 0 <= i < |parts| ==> sep !in parts[i]
    ensures Join(parts, sep) == s
    decreases |s|
  {
    if s == [] then [""]
    else
      var rest := Split(s[1..], sep);
      if s[0] == sep then [""] + rest
      else
        var head := [s[0]] + rest[0];
        assert Join([head] + rest[1..], sep) == [s[0]] + Join(rest, sep) by {
          if |rest| > 1 {
            assert ([head] + rest[1..])[1..] == rest[1..];
          }
        }
        [head] + rest[1..]
  }

  /** True when `first` is the text of `s` before its first `sep` (all of `s` if none). */
  predicate IsFirstField(s: string, sep: char, first: string)
  {
    first <= s && sep !in first && (|first| == |s| || s[|first|] == sep)
  }

  /** The first field of a string is unique. */
  lemma FirstFieldUnique(s: string, sep: char, f: string, g: string)
    requires IsFirstField(s, sep, f) && IsFirstField(s, sep, g)
    ensures f == g
  {
    assert forall i :: 0 <= i < |f| ==> s[i] == f[i];
    assert forall i :: 0 <= i < |g| ==> s[i] == g[i];
  }

  /** `s.split(sep)[0]` is the text before the first separator. */
  lemma SplitFirst(s: string, sep: char)
    ensures IsFirstField(s, sep, Split(s, sep)[0])
  {
    var parts := Split(s, sep);
    if |parts| > 1 {
      assert s == parts[0] + [sep] + Join(parts[1..], sep);
      assert s[|parts[0]|] == sep;
    }
  }

  /** Joining separator-free pieces and splitting again gives the same pieces back. */
  lemma {:induction false} SplitJoin(parts: seq<string>, sep: char)
    requires |parts| >= 1
    requires forall i :: 0 <= i < |parts| ==> sep !in parts[i]
    ensures Split(Join(parts, sep), sep) == parts
  {
    JoinInjective(Split(Join(parts, sep), sep), parts, sep);
  }

  /** Two lists of non-separator pieces with the same join are equal. */
  lemma {:induction false} JoinInjective(p: seq<string>, q: seq<string>, sep: char)
    requires |p| >= 1 && |q| >= 1
    requires forall i :: 0 <= i < |p| ==> sep !in p[i]
    requires forall i :: 0 <= i < |q| ==> sep !in q[i]
    requires Join(p, sep) == Join(q, sep)
    ensures p == q
    decreases |p|
  {
    var s := Join(p, sep);
    JoinFirstField(p, sep);
    JoinFirstField(q, sep);
    FirstFieldUnique(s, sep, p[0], q[0]);
    if |p| == 1 || |q| == 1 {
      assert |p[0]| == |s| == |q[0]|;
      assert p == [p[0]] && q == [q[0]];
    } else {
      var s1 := Join(p[1..], sep);
      var s2 := Join(q[1..], sep);
      assert s == p[0] + [sep] + s1 == q[0] + [sep] + s2;
      assert s1 == s[|p[0]| + 1..];
      assert s2 == s[|q[0]| + 1..];
      JoinInjective(p[1..], q[1..], sep);
      assert p == [p[0]] + p[1..];
      assert q == [q[0]] + q[1..];
    }
  }

  /** The first piece of a join is the joined string's first field. */
  lemma JoinFirstField(parts: seq<string>, sep: char)
    requires |parts| >= 1
    requires sep !in parts[0]
    ensures IsFirstField(Join(parts, sep), sep, parts[0])
  {
    if |parts| > 1 {
      assert Join(parts, sep) == parts[0] + [sep] + Join(parts[1..], sep);
    }
  }
}
