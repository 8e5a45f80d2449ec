/** The JavaScript string built-ins the walk pipeline relies on:
    `split` with a one-character separator, its inverse `join`,
    `substring(0, n)` and `replace` with a one-character string pattern. */
module JsString {

  /** `parts.join(sep)`: the parts with one `sep` between neighbours. */
  function Join(parts: seq<string>, sep: char): string
    decreases |parts|
  {
    if |parts| == 0 then ""
    else if |parts| == 1 then parts[0]
    else parts[0] + [sep] + Join(parts[1..], sep)
  }

  /** `s.split(sep)`: the maximal separator-free pieces of `s`, in order.
      There is always at least one piece (the empty string splits to `[""]`),
      the first piece is the text before the first separator, and joining the
      pieces back gives `s`. */
  function Split(s: string, sep: char): (r: seq<string>)
    ensures |r| >= 1
    ensures forall i :: 0 <= i < |r| ==> sep !in r[i]
    ensures Join(r, sep) == s
    ensures r[0] <= s
    ensures |r| == 1 <==> sep !in s
    ensures |r| > 1 ==> s[|r[0]|] == sep
    decreases |s|
  {
    if |s| == 0 then [""]
    else
      var rest := Split(s[1..], sep);
      assert s == [s[0]] + s[1..];
      if s[0] == sep then
        assert ([""] + rest)[1..] == rest;
        [""] + rest
      else
        var r := [[s[0]] + rest[0]] + rest[1..];
        assert |rest| > 1 ==> Join(rest, sep) == rest[0] + [sep] + Join(rest[1..], sep);
        assert r[1..] == rest[1..];
        r
  }

  /** Splitting text that starts with a separator-free piece and a separator
      yields that piece followed by the pieces of the remainder. */
  lemma {:induction false} SplitAfterPiece(a: string, sep: char, b: string)
    requires sep !in a
    ensures Split(a + [sep] + b, sep) == [a] + Split(b, sep)
    decreases |a|
  {
    var s := a + [sep] + b;
    if |a| == 0 {
      assert s == [sep] + b;
      assert s[1..] == b;
    } else {
      assert s[0] == a[0];
      assert s[1..] == a[1..] + [sep] + b;
      SplitAfterPiece(a[1..], sep, b);
      assert [a[0]] + a[1..] == a;
    }
  }

  /** Split undoes Join whenever no part contains the separator. */
  lemma {:induction false} SplitJoin(parts: seq<string>, sep: char)
    requires |parts| >= 1
    requires forall i :: 0 <= i < |parts| ==> sep !in parts[i]
    ensures Split(Join(parts, sep), sep) == parts
    decreases |parts|
  {
    if |parts| == 1 {
      var r := Split(parts[0], sep);
      assert |r| == 1;
      assert Join(r, sep) == r[0];
    } else {
      SplitJoin(parts[1..], sep);
      SplitAfterPiece(parts[0], sep, Join(parts[1..], sep));
      assert [parts[0]] + parts[1..] == parts;
    }
  }

  /** `s.substring(0, n)`: the first `n` Unicode scalar values, or all of `s`
      when it is shorter. JavaScript counts UTF-16 code units instead; the two
      agree on text inside the Basic Multilingual Plane. */
  function Truncate(s: string, n: nat): (r: string)
    ensures |r| == if |s| < n then |s| else n
    ensures r <= s
  {
    if |s| <= n then s else s[..n]
  }

  /** `s.replace(pat, rep)` with a one-character string pattern: only the first
      occurrence of `pat` becomes `rep`, every other character is unchanged. */
  function ReplaceFirst(s: string, pat: char, rep: char): (r: string)
    ensures |r| == |s|
    ensures forall i :: 0 <= i < |s| ==>
              r[i] == if s[i] == pat && pat !in s[..i] then rep else s[i]
    decreases |s|
  {
    if |s| == 0 then ""
    else if s[0] == pat then [rep] + s[1..]
    else
      var r := [s[0]] + ReplaceFirst(s[1..], pat, rep);
      assert forall i :: 1 <= i < |s| ==> s[..i] == [s[0]] + s[1..][..i - 1];
      r
  }
}
