/** String and list operations shared by the clipboard handlers and the
    configuration screens: `split`, `trim`, and the include/filter toggle. */
module Text {

  /** `s.split(sep)` for a one-character separator. */
  function Split(s: string, sep: char): (parts: seq<string>)
    ensures |parts| >= 1
    ensures forall i :: 0 <= i < |parts| ==> sep !in parts[i]
  {
    if s == [] then [""]
    else
      var rest := Split(s[1..], sep);
      if s[0] == sep then [""] + rest
      else [[s[0]] + rest[0]] + rest[1..]
  }

  /** `parts.join(sep)`. */
  function Join(parts: seq<string>, sep: char): string
    requires |parts| >= 1
  {
    if |parts| == 1 then parts[0] else parts[0] + [sep] + Join(parts[1..], sep)
  }

  lemma {:induction false} JoinSplit(s: string, sep: char)
    ensures Join(Split(s, sep), sep) == s
  {
    if s != [] {
      JoinSplit(s[1..], sep);
      var rest := Split(s[1..], sep);
      if s[0] != sep {
        if |rest| == 1 {
          assert Split(s, sep) == [[s[0]] + rest[0]];
        } else {
          assert Split(s, sep)[1..] == rest[1..];
        }
      } else {
        assert Split(s, sep)[1..] == rest;
      }
    }
  }

  /** Only the empty string splits into a single empty piece. */
  lemma SplitEmpty(s: string, sep: char)
    requires Split(s, sep) == [""]
    ensures s == ""
  {
    JoinSplit(s, sep);
  }

  function DropTrailingCR(s: string): string {
    if |s| > 0 && s[|s| - 1] == '\r' then s[..|s| - 1] else s
  }

  /** `s.split(/\r?\n/)`: every line feed ends a line and takes one carriage
      return before it along. */
  function SplitLines(s: string): (lines: seq<string>)
    ensures |lines| == |Split(s, '\n')| >= 1
    ensures forall i :: 0 <= i < |lines| ==> '\n' !in lines[i]
    ensures lines[|lines| - 1] == Split(s, '\n')[|lines| - 1]
    ensures forall i :: 0 <= i < |lines| - 1 ==>
      || Split(s, '\n')[i] == lines[i] + "\r"
      || (Split(s, '\n')[i] == lines[i] && (lines[i] == [] || lines[i][|lines[i]| - 1] != '\r'))
  {
    var p := Split(s, '\n');
    seq(|p|, i requires 0 <= i < |p| => if i < |p| - 1 then DropTrailingCR(p[i]) else p[i])
  }

  /** The characters `String.prototype.trim` removes that the model knows. */
  predicate IsSpace(c: char) {
    c == ' ' || c == '\t' || c == '\n' || c == '\r' || c == '\U{000B}' || c == '\U{000C}'
    || c == '\U{00A0}' || c == '\U{FEFF}' || c == '\U{2028}' || c == '\U{2029}'
  }

  function TrimStart(s: string): string {
    if s != [] && IsSpace(s[0]) then TrimStart(s[1..]) else s
  }

  function TrimEnd(s: string): string {
    if s != [] && IsSpace(s[|s| - 1]) then TrimEnd(s[..|s| - 1]) else s
  }

  /** `TrimStart` drops a prefix made of white space only, and what is left
      does not start with white space. */
  lemma {:induction false} TrimStartDropsSpace(s: string)
    ensures |TrimStart(s)| <= |s|
    ensures TrimStart(s) == s[|s| - |TrimStart(s)|..]
    ensures forall i :: 0 <= i < |s| - |TrimStart(s)| ==> IsSpace(s[i])
    ensures TrimStart(s) == [] || !IsSpace(TrimStart(s)[0])
  {
    if s != [] && IsSpace(s[0]) {
      TrimStartDropsSpace(s[1..]);
      assert s[1..][|s| - 1 - |TrimStart(s)|..] == s[|s| - |TrimStart(s)|..];
      forall i | 1 <= i < |s| - |TrimStart(s)| ensures IsSpace(s[i]) {
        assert s[i] == s[1..][i - 1];
      }
    }
  }

  /** `TrimEnd` drops a suffix made of white space only, and what is left
      does not end with white space. */
  lemma {:induction false} TrimEndDropsSpace(s: string)
    ensures |TrimEnd(s)| <= |s|
    ensures TrimEnd(s) == s[..|TrimEnd(s)|]
    ensures forall i :: |TrimEnd(s)| <= i < |s| ==> IsSpace(s[i])
    ensures TrimEnd(s) == [] || !IsSpace(TrimEnd(s)[|TrimEnd(s)| - 1])
  {
    if s != [] && IsSpace(s[|s| - 1]) {
      TrimEndDropsSpace(s[..|s| - 1]);
      assert s[..|s| - 1][..|TrimEnd(s)|] == s[..|TrimEnd(s)|];
    }
  }

  /** `s.trim()`: white space dropped at both ends. */
  function Trim(s: string): string {
    TrimEnd(TrimStart(s))
  }

  /** The trimmed string is the slice of `s` between a prefix and a suffix
      made of white space only, and it neither starts nor ends with white
      space. */
  lemma TrimIsSlice(s: string)
    ensures var k := |s| - |TrimStart(s)|;
      && 0 <= k && k + |Trim(s)| <= |s|
      && Trim(s) == s[k..k + |Trim(s)|]
      && (forall i :: 0 <= i < k ==> IsSpace(s[i]))
      && (forall i :: k + |Trim(s)| <= i < |s| ==> IsSpace(s[i]))
    ensures Trim(s) == [] || (!IsSpace(Trim(s)[0]) && !IsSpace(Trim(s)[|Trim(s)| - 1]))
  {
    var t := TrimStart(s);
    var k := |s| - |t|;
    var r := TrimEnd(t);
    TrimStartDropsSpace(s);
    TrimEndDropsSpace(t);
    assert t == s[k..];
    assert r == t[..|r|] == s[k..][..|r|] == s[k..k + |r|];
    forall i | k + |r| <= i < |s| ensures IsSpace(s[i]) {
      assert s[i] == t[i - k];
    }
    if r != [] {
      assert r[0] == t[0];
    }
  }

  /** A line that the `filter(r => r.trim())` of a paste keeps. */
  predicate IsBlank(s: string) { Trim(s) == "" }

  /** `xs.filter(y => y !== x)`. */
  function Remove(xs: seq<string>, x: string): (r: seq<string>)
    ensures x !in r
    ensures forall y :: y in r <==> y in xs && y != x
    ensures x !in xs ==> r == xs
  {
    if xs == [] then []
    else (if xs[0] == x then [] else [xs[0]]) + Remove(xs[1..], x)
  }

  /** `xs.includes(x) ? xs.filter(y => y !== x) : [...xs, x]`. */
  function Toggle(xs: seq<string>, x: string): (r: seq<string>)
    ensures x in r <==> x !in xs
    ensures forall y :: y != x ==> (y in r <==> y in xs)
  {
    if x in xs then Remove(xs, x) else xs + [x]
  }

  /** Toggling twice restores the membership; when `x` was absent, it restores
      the very sequence. */
  lemma ToggleTwice(xs: seq<string>, x: string)
    ensures forall y :: y in Toggle(Toggle(xs, x), x) <==> y in xs
    ensures x !in xs ==> Toggle(Toggle(xs, x), x) == xs
  {
    if x !in xs {
      RemoveAppended(xs, x);
    }
  }

  lemma {:induction false} RemoveAppended(xs: seq<string>, x: string)
    requires x !in xs
    ensures Remove(xs + [x], x) == xs
  {
    if xs == [] {
      assert Remove([x], x) == [] + Remove([x][1..], x);
    } else {
      assert (xs + [x])[1..] == xs[1..] + [x];
      RemoveAppended(xs[1..], x);
    }
  }

  /** `xs.filter((_, i) => i !== k)`. */
  function RemoveAt<T>(xs: seq<T>, k: nat): (r: seq<T>)
    ensures k < |xs| ==> r == xs[..k] + xs[k + 1..]
    ensures k >= |xs| ==> r == xs
  {
    if xs == [] then []
    else if k == 0 then xs[1..]
    else [xs[0]] + RemoveAt(xs[1..], k - 1)
  }
}
