/** String operations the application relies on, stated over `seq<char>`:
    ASCII lower-casing (`str.lower`), substring containment (`t in s`),
    joining (`sep.join(parts)`) and splitting (`s.split(c)`). */
module Text {

  /** Lower-cases one ASCII letter; every other character is unchanged. */
  function LowerChar(c: char): char
  {
    if 'A' <= c <= 'Z' then (c as int - 'A' as int + 'a' as int) as char else c
  }

  /** `s.lower()`, restricted to ASCII letters. */
  function Lower(s: string): string
  {
    seq(|s|, i requires 0 <= i < |s| => LowerChar(s[i]))
  }

  /** Lower-casing twice is lower-casing once. */
  lemma LowerIdempotent(s: string)
    ensures Lower(Lower(s)) == Lower(s)
  {
    var once := Lower(s);
    var twice := Lower(once);
    assert |twice| == |once|;
    forall i | 0 <= i < |once|
      ensures twice[i] == once[i]
    {
      assert twice[i] == LowerChar(once[i]);
    }
  }

  /** `t` occurs in `s` at position `i`. */
  ghost predicate OccursAt(t: string, s: string, i: nat)
  {
    i + |t| <= |s| && s[i..i + |t|] == t
  }

  /** `t` is a substring of `s`: the meaning of Python's `t in s`. */
  ghost predicate Occurs(t: string, s: string)
  {
    exists i: nat :: OccursAt(t, s, i)
  }

  /** Python's `t in s`, computed by scanning `s` for a prefix equal to `t`;
      it holds exactly when `t` occurs somewhere in `s`. */
  function Contains(s: string, t: string): (r: bool)
    ensures r <==> Occurs(t, s)
  {
    if t <= s then
      assert OccursAt(t, s, 0);
      true
    else if |s| == 0 then
      false
    else
      ShiftOccurs(t, s);
      Contains(s[1..], t)
  }

  /** When `t` is not a prefix of a non-empty `s`, it occurs in `s` exactly
      when it occurs in `s[1..]`. */
  lemma ShiftOccurs(t: string, s: string)
    requires |s| > 0 && !(t <= s)
    ensures Occurs(t, s) <==> Occurs(t, s[1..])
  {
    if Occurs(t, s) {
      var i: nat :| OccursAt(t, s, i);
      assert s[1..][i - 1..i - 1 + |t|] == s[i..i + |t|];
      assert OccursAt(t, s[1..], i - 1);
    }
    if Occurs(t, s[1..]) {
      var j: nat :| OccursAt(t, s[1..], j);
      assert s[j + 1..j + 1 + |t|] == s[1..][j..j + |t|];
      assert OccursAt(t, s, j + 1);
    }
  }

  /** A character that occurs nowhere in `s` rules out every pattern containing it. */
  lemma AbsentCharRulesOut(t: string, s: string, c: char)
    requires c in t && c !in s
    ensures !Occurs(t, s)
  {
  }

  /** Python's `sep.join(parts)`. */
  function Join(parts: seq<string>, sep: string): string
  {
    if |parts| == 0 then ""
    else if |parts| == 1 then parts[0]
    else parts[0] + sep + Join(parts[1..], sep)
  }

  /** Python's `s.split(c)` for a one-character separator: the pieces between
      consecutive occurrences of `c`; there is always at least one piece. */
  function Split(s: string, c: char): (r: seq<string>)
    ensures |r| >= 1
  {
    if |s| == 0 then [""]
    else
      var rest := Split(s[1..], c);
      if s[0] == c then [""] + rest else [[s[0]] + rest[0]] + rest[1..]
  }

  /** A string without the separator is its own single piece. */
  lemma {:induction false} SplitWithout(p: string, c: char)
    requires c !in p
    ensures Split(p, c) == [p]
  {
    if |p| > 0 {
      SplitWithout(p[1..], c);
      assert [p[0]] + p[1..] == p;
    }
  }

  /** A separator-free piece followed by the separator splits off as the first piece. */
  lemma {:induction false} SplitAfterPiece(p: string, c: char, rest: string)
    requires c !in p
    ensures Split(p + [c] + rest, c) == [p] + Split(rest, c)
  {
    var s := p + [c] + rest;
    if |p| == 0 {
      assert s[1..] == rest;
    } else {
      assert s[1..] == p[1..] + [c] + rest;
      SplitAfterPiece(p[1..], c, rest);
      assert [p[0]] + p[1..] == p;
    }
  }

  /** Splitting undoes joining when no part contains the separator. */
  lemma {:induction false} SplitJoin(parts: seq<string>, c: char)
    requires |parts| > 0
    requires forall k :: 0 <= k < |parts| ==> c !in parts[k]
    ensures Split(Join(parts, [c]), c) == parts
  {
    if |parts| == 1 {
      SplitWithout(parts[0], c);
    } else {
      SplitJoin(parts[1..], c);
      SplitAfterPiece(parts[0], c, Join(parts[1..], [c]));
      assert [parts[0]] + parts[1..] == parts;
    }
  }
}
