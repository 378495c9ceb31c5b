/**
 * `String.split` with a one-character, non-special delimiter and limit 0, as
 * the Java library defines it: the fields between delimiters, with trailing
 * empty fields removed, and the whole string as the only field when the
 * delimiter does not occur at all.
 */
module JavaSplit {

  /** All fields of `s` between occurrences of `d`, empty ones included. */
  function Fields(s: string, d: char): (parts: seq<string>)
    ensures |parts| >= 1
    ensures forall k :: 0 <= k < |parts| ==> d !in parts[k]
  {
    if s == [] then [[]]
    else
      var rest := Fields(s[1..], d);
      if s[0] == d then [[]] + rest else [[s[0]] + rest[0]] + rest[1..]
  }

  /** The fields put back together with `d` between consecutive ones. */
  function Join(parts: seq<string>, d: char): string
    requires |parts| >= 1
  {
    if |parts| == 1 then parts[0] else parts[0] + [d] + Join(parts[1..], d)
  }

  /** Joining the fields with the delimiter gives the string back: no character is lost or added. */
  lemma {:induction false} FieldsJoin(s: string, d: char)
    ensures Join(Fields(s, d), d) == s
  {
    if s != [] {
      var rest := Fields(s[1..], d);
      FieldsJoin(s[1..], d);
      if s[0] == d {
        assert Fields(s, d)[1..] == rest;
      } else if |rest| == 1 {
        assert Join(Fields(s, d), d) == [s[0]] + rest[0];
      } else {
        assert Fields(s, d)[1..] == rest[1..];
        assert Join(rest, d) == rest[0] + [d] + Join(rest[1..], d);
      }
    }
  }

  /** Drops the empty strings at the end of `parts`. */
  function StripTrailingEmpty(parts: seq<string>): (r: seq<string>)
    ensures |r| <= |parts| && r == parts[..|r|]
    ensures |r| > 0 ==> r[|r| - 1] != []
    ensures forall k :: |r| <= k < |parts| ==> parts[k] == []
  {
    if |parts| > 0 && parts[|parts| - 1] == [] then StripTrailingEmpty(parts[..|parts| - 1]) else parts
  }

  /** `s.split(d)` for a delimiter that is not a regular-expression metacharacter. */
  function Split(s: string, d: char): seq<string>
  {
    if d !in s then [s] else StripTrailingEmpty(Fields(s, d))
  }

  /** Reference definition: the position of the first `d` in `s`, or |s| if there is none. */
  function IndexOf(s: string, d: char): (i: nat)
    ensures i <= |s|
    ensures i < |s| ==> s[i] == d
    ensures d !in s[..i]
  {
    if s == [] then 0
    else if s[0] == d then 0
    else
      assert s[..1 + IndexOf(s[1..], d)] == [s[0]] + s[1..][..IndexOf(s[1..], d)];
      1 + IndexOf(s[1..], d)
  }

  /** The first field is the text before the first delimiter. */
  lemma {:induction false} FirstField(s: string, d: char)
    ensures Fields(s, d)[0] == s[..IndexOf(s, d)]
  {
    if s != [] && s[0] != d {
      FirstField(s[1..], d);
      assert s[..IndexOf(s, d)] == [s[0]] + s[1..][..IndexOf(s[1..], d)];
    }
  }

  /**
   * What the first element of `s.split(d)` is: there is none exactly when `s`
   * is a run of delimiters only (and not empty); otherwise it is the text
   * before the first delimiter, which is empty exactly when `s` is empty or
   * starts with `d`.
   */
  lemma SplitHead(s: string, d: char)
    ensures |Split(s, d)| == 0 <==> s != [] && forall k :: 0 <= k < |s| ==> s[k] == d
    ensures |Split(s, d)| > 0 ==> Split(s, d)[0] == s[..IndexOf(s, d)]
  {
    FirstField(s, d);
    if d in s {
      var parts := Fields(s, d);
      var r := StripTrailingEmpty(parts);
      if forall k :: 0 <= k < |s| ==> s[k] == d {
        AllDelimitersGiveEmptyFields(s, d);
      } else {
        var j :| 0 <= j < |s| && s[j] != d;
        NonDelimiterGivesNonEmptyField(s, d, j);
      }
    }
  }

  /** A string made only of delimiters splits into empty fields. */
  lemma {:induction false} AllDelimitersGiveEmptyFields(s: string, d: char)
    requires forall k :: 0 <= k < |s| ==> s[k] == d
    ensures forall k :: 0 <= k < |Fields(s, d)| ==> Fields(s, d)[k] == []
  {
    if s != [] {
      AllDelimitersGiveEmptyFields(s[1..], d);
    }
  }

  /** A character that is not the delimiter lies in some non-empty field. */
  lemma {:induction false} NonDelimiterGivesNonEmptyField(s: string, d: char, j: nat)
    requires j < |s| && s[j] != d
    ensures exists k :: 0 <= k < |Fields(s, d)| && Fields(s, d)[k] != []
  {
    var rest := Fields(s[1..], d);
    if j == 0 {
      assert Fields(s, d)[0] != [];
    } else {
      NonDelimiterGivesNonEmptyField(s[1..], d, j - 1);
      var k :| 0 <= k < |rest| && rest[k] != [];
      if s[0] == d {
        assert Fields(s, d)[k + 1] == rest[k];
      } else if k == 0 {
        assert Fields(s, d)[0] != [];
      } else {
        assert Fields(s, d)[k] == rest[k];
      }
    }
  }
}
