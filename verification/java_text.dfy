/** The small pieces of `java.lang.String`, `java.lang.Character` and
    commons-lang `StringUtils` that the modelled code leans on, with the
    edge cases those libraries define (negative indices, `null`, adjacent
    separators).
 */
module JavaText {
  import opened Wrappers

  /** `Character.isWhitespace`: the Unicode space separators other than the
      no-break spaces, plus the ASCII controls TAB, LF, VT, FF, CR and FS..US. */
  predicate IsWhitespace(c: char) {
    || c == ' '
    || ('\t' <= c <= '\r')
    || ('\U{001C}' <= c <= '\U{001F}')
    || c == '\U{1680}'
    || ('\U{2000}' <= c <= '\U{2006}')
    || ('\U{2008}' <= c <= '\U{200A}')
    || c == '\U{2028}' || c == '\U{2029}' || c == '\U{205F}' || c == '\U{3000}'
  }

  /** `StringUtils.isBlank`: null, empty, or whitespace only. */
  predicate IsBlank(s: Option<string>) {
    s.None? || forall i :: 0 <= i < |s.value| ==> IsWhitespace(s.value[i])
  }

  /** `StringUtils.indexOf(str, ch)`: the first index of `c`, or -1. */
  function IndexOf(s: string, c: char): (r: int)
    ensures r == -1 <==> c !in s
    ensures r != -1 ==> 0 <= r < |s| && s[r] == c && c !in s[..r]
  {
    if |s| == 0 then -1
    else if s[0] == c then 0
    else
      var k := IndexOf(s[1..], c);
      assert s[1..][..if k == -1 then 0 else k] == s[1..1 + if k == -1 then 0 else k];
      if k == -1 then -1 else k + 1
  }

  /** `StringUtils.indexOf(str, ch) > -1`, which is false for a null string. */
  predicate ContainsChar(s: Option<string>, c: char) {
    s.Some? && IndexOf(s.value, c) > -1
  }

  /** `StringUtils.substring(str, start, end)` on a non-null string: negative
      bounds count from the end, `end` is clipped to the length, and crossed
      bounds give the empty string instead of throwing. */
  function Substring(s: string, start: int, end: int): (r: string)
    ensures |r| <= |s|
    ensures 0 <= start <= end <= |s| ==> r == s[start..end]
  {
    var e0 := if end < 0 then |s| + end else end;
    var b0 := if start < 0 then |s| + start else start;
    var e1 := if e0 > |s| then |s| else e0;
    if b0 > e1 then ""
    else
      var b := if b0 < 0 then 0 else b0;
      var e := if e1 < 0 then 0 else e1;
      s[b..e]
  }

  /** True when `c` is not a control or space character, i.e. `String.trim`
      keeps it at either end. */
  predicate AboveSpace(c: char) {
    c > ' '
  }

  /** The first index at or after `k` holding a character above U+0020, or `|s|`. */
  function FirstAbove(s: string, k: nat): (b: nat)
    requires k <= |s|
    ensures k <= b <= |s|
    ensures forall i :: k <= i < b ==> !AboveSpace(s[i])
    ensures b < |s| ==> AboveSpace(s[b])
    decreases |s| - k
  {
    if k == |s| || AboveSpace(s[k]) then k else FirstAbove(s, k + 1)
  }

  /** One past the last index below `e` holding a character above U+0020, or 0. */
  function EndAbove(s: string, e: nat): (r: nat)
    requires e <= |s|
    ensures r <= e
    ensures forall i :: r <= i < e ==> !AboveSpace(s[i])
    ensures r > 0 ==> AboveSpace(s[r - 1])
  {
    if e == 0 || AboveSpace(s[e - 1]) then e else EndAbove(s, e - 1)
  }

  /** `String.trim`: drops every character at or below U+0020 from both ends;
      commons-lang `StringUtils.trim` is the same on a non-null string. */
  function Trim(s: string): (r: string)
    ensures |r| > 0 ==> AboveSpace(r[0]) && AboveSpace(r[|r| - 1])
    ensures |r| > 0 ==> FirstAbove(s, 0) < EndAbove(s, |s|) && r == s[FirstAbove(s, 0)..EndAbove(s, |s|)]
    ensures |r| == 0 <==> forall i :: 0 <= i < |s| ==> !AboveSpace(s[i])
  {
    var b, e := FirstAbove(s, 0), EndAbove(s, |s|);
    if b < e then s[b..e] else ""
  }

  /** Trimming leaves alone a string that starts and ends above U+0020. */
  lemma TrimKeepsTrimmed(s: string)
    requires |s| > 0 && AboveSpace(s[0]) && AboveSpace(s[|s| - 1])
    ensures Trim(s) == s
  {
    assert s[0..|s|] == s;
  }

  /** Length of the leading run of `s` that contains no `sep`. */
  function TokenLength(s: string, sep: char): (n: nat)
    ensures n <= |s|
    ensures sep !in s[..n]
    ensures n < |s| ==> s[n] == sep
  {
    if |s| == 0 || s[0] == sep then 0
    else
      var n := 1 + TokenLength(s[1..], sep);
      assert s[..n] == [s[0]] + s[1..][..n - 1];
      n
  }

  /** `StringUtils.split(str, separatorChars)` with a one-character separator:
      the maximal runs of non-separator characters, so adjacent, leading and
      trailing separators produce no empty tokens. */
  function Split(s: string, sep: char): (tokens: seq<string>)
    ensures forall i :: 0 <= i < |tokens| ==> |tokens[i]| > 0 && sep !in tokens[i]
    decreases |s|
  {
    if |s| == 0 then []
    else if s[0] == sep then Split(s[1..], sep)
    else
      var n := TokenLength(s, sep);
      [s[..n]] + Split(s[n..], sep)
  }

  /** The tokens written back out with one separator between neighbours. */
  function JoinWith(tokens: seq<string>, sep: char): string {
    if |tokens| == 0 then ""
    else if |tokens| == 1 then tokens[0]
    else tokens[0] + [sep] + JoinWith(tokens[1..], sep)
  }

  /** Splitting undoes joining whenever the tokens are non-empty and free of
      the separator: `Split` loses nothing that `JoinWith` put in. */
  lemma {:induction false} SplitJoinRoundTrip(tokens: seq<string>, sep: char)
    requires forall i :: 0 <= i < |tokens| ==> |tokens[i]| > 0 && sep !in tokens[i]
    ensures Split(JoinWith(tokens, sep), sep) == tokens
    decreases |tokens|
  {
    if |tokens| == 0 {
    } else if |tokens| == 1 {
      var t := tokens[0];
      TokenLengthOfFreeRun(t, [], sep);
      assert t + [] == t;
      assert t[..|t|] == t && t[|t|..] == [];
    } else {
      var t := tokens[0];
      var rest := JoinWith(tokens[1..], sep);
      var s := t + [sep] + rest;
      TokenLengthOfFreeRun(t, [sep] + rest, sep);
      assert s == t + ([sep] + rest);
      assert s[..|t|] == t;
      assert s[|t|..] == [sep] + rest;
      assert ([sep] + rest)[1..] == rest;
      SplitJoinRoundTrip(tokens[1..], sep);
      assert tokens == [t] + tokens[1..];
    }
  }

  /** A separator-free prefix followed by a separator (or nothing) is one token. */
  lemma {:induction false} TokenLengthOfFreeRun(t: string, tail: string, sep: char)
    requires sep !in t
    requires |tail| == 0 || tail[0] == sep
    ensures TokenLength(t + tail, sep) == |t|
    decreases |t|
  {
    if |t| > 0 {
      assert (t + tail)[0] == t[0];
      assert (t + tail)[1..] == t[1..] + tail;
      TokenLengthOfFreeRun(t[1..], tail, sep);
    } else {
      assert t + tail == tail;
    }
  }

  /** ASCII upper-casing of one character. */
  function UpperChar(c: char): (r: char)
    ensures 'a' <= c <= 'z' ==> 'A' <= r <= 'Z'
    ensures !('a' <= c <= 'z') ==> r == c
  {
    if 'a' <= c <= 'z' then (c as int - 'a' as int + 'A' as int) as char else c
  }

  /** `String.toUpperCase` restricted to ASCII letters. */
  function Upper(s: string): (r: string)
    ensures |r| == |s|
    ensures forall i :: 0 <= i < |s| ==> r[i] == UpperChar(s[i])
  {
    if |s| == 0 then [] else [UpperChar(s[0])] + Upper(s[1..])
  }

  /** Text without lower-case letters is left as it is. */
  lemma UpperKeepsUpperCase(s: string)
    requires forall i :: 0 <= i < |s| ==> !('a' <= s[i] <= 'z')
    ensures Upper(s) == s
  {
  }

  /** Upper-casing twice is upper-casing once. */
  lemma UpperIdempotent(s: string)
    ensures Upper(Upper(s)) == Upper(s)
  {
    var u := Upper(s);
    assert forall i :: 0 <= i < |u| ==> UpperChar(u[i]) == u[i];
  }
}
