/** The pure helpers of the ACL module: request-content assembly, byte
    concatenation, and the IPv4 address-pattern checks.
 */
module AclUtils {
  import opened Wrappers
  import JavaText
  import JavaNumbers

  /** A Java `byte`. */
  newtype JByte = b: int | -128 <= b < 128

  type Bytes = seq<JByte>

  /** The exceptions these helpers can end in. */
  datatype AclError =
    | NullPointer                    // dereferencing a null array
    | NumberFormat                   // `Integer.valueOf` on a non-number
    | IndexOutOfBounds               // reading past the end of a token array
    | ScopeViolation(netaddress: string) // `AclException` from `verify`

  /** `length` of an array that may be null, counting null as empty. */
  function Length(b: Option<Bytes>): nat {
    if b.Some? then |b.value| else 0
  }

  /** `combineBytes` as written: when `b1` is null and `b2` is not, the
      second copy reads `b1.length` and throws. */
  function CombineBytesAsWritten(b1: Option<Bytes>, b2: Option<Bytes>): (r: Result<Bytes, AclError>)
    ensures r.Failure? <==> b1.None? && b2.Some?
    ensures r.Success? ==> |r.value| == Length(b1) + Length(b2)
    ensures r.Success? ==> r.value == b1.GetOr([]) + b2.GetOr([])
  {
    if b1.None? && b2.Some? then Failure(NullPointer)
    else Success(b1.GetOr([]) + b2.GetOr([]))
  }

  /** The null-first input that makes `combineBytes` throw. */
  lemma CombineBytesNullFirstThrows()
    ensures CombineBytesAsWritten(None, Some([1, 2])) == Failure(NullPointer)
    ensures |CombineBytes(None, Some([1, 2]))| == Length(None) + Length(Some([1 as JByte, 2]))
  {
  }

  /** `combineBytes` as its size computation intends: a null array counts as
      empty, and the result is `b1`'s bytes followed by `b2`'s. */
  function CombineBytes(b1: Option<Bytes>, b2: Option<Bytes>): (r: Bytes)
    ensures |r| == Length(b1) + Length(b2)
    ensures r[..Length(b1)] == b1.GetOr([])
    ensures r[Length(b1)..] == b2.GetOr([])
  {
    b1.GetOr([]) + b2.GetOr([])
  }

  /** Wherever the code as written does not throw, it agrees with the intended one. */
  lemma CombineBytesAgreesUnlessNullFirst(b1: Option<Bytes>, b2: Option<Bytes>)
    requires b1.Some? || b2.None?
    ensures CombineBytesAsWritten(b1, b2) == Success(CombineBytes(b1, b2))
  {
  }

  /** The values of the sorted field map in iteration order, leaving out the
      entry whose key is the signature key. */
  function SignedContent(fields: seq<(string, string)>, signatureKey: string): string {
    if |fields| == 0 then ""
    else FieldText(fields[0], signatureKey) + SignedContent(fields[1..], signatureKey)
  }

  /** What one entry contributes: its value, or nothing for the signature entry. */
  function FieldText(field: (string, string), signatureKey: string): string {
    if field.0 == signatureKey then "" else field.1
  }

  /** The filtered `forEach` over the sorted entries: each value appended to
      the `StringBuilder` in turn, the signature entry skipped. */
  method BuildSignedContent(fields: seq<(string, string)>, signatureKey: string) returns (r: string)
    ensures r == SignedContent(fields, signatureKey)
  {
    r := "";
    var i := 0;
    while i < |fields|
      invariant 0 <= i <= |fields|
      invariant r == SignedContent(fields[..i], signatureKey)
    {
      assert fields[..i + 1] == fields[..i] + [fields[i]];
      assert [fields[i]][1..] == [];
      SignedContentAppend(fields[..i], [fields[i]], signatureKey);
      if fields[i].0 != signatureKey {
        r := r + fields[i].1;
      }
      i := i + 1;
    }
    assert fields[..|fields|] == fields;
  }

  /** Content assembly respects concatenation of the field list. */
  lemma {:induction false} SignedContentAppend(a: seq<(string, string)>, b: seq<(string, string)>, signatureKey: string)
    ensures SignedContent(a + b, signatureKey) == SignedContent(a, signatureKey) + SignedContent(b, signatureKey)
    decreases |a|
  {
    if |a| > 0 {
      assert (a + b)[1..] == a[1..] + b;
      SignedContentAppend(a[1..], b, signatureKey);
    } else {
      assert a + b == b;
    }
  }

  /** Whatever the signature entry holds never reaches the signed content. */
  lemma {:induction false} SignatureValueIgnored(fields: seq<(string, string)>, i: nat, v: string, signatureKey: string)
    requires i < |fields| && fields[i].0 == signatureKey
    ensures SignedContent(fields[i := (signatureKey, v)], signatureKey) == SignedContent(fields, signatureKey)
    decreases i
  {
    if i > 0 {
      assert fields[i := (signatureKey, v)][1..] == fields[1..][i - 1 := (signatureKey, v)];
      SignatureValueIgnored(fields[1..], i - 1, v, signatureKey);
    } else {
      assert fields[i := (signatureKey, v)][1..] == fields[1..];
    }
  }

  /** `combineRequestContent` at the string level: the signed content,
      encoded by `encode` (the charset conversion, not modelled), followed by
      the request body. The field list is the sorted map's entries in key
      order; the signature key is passed in. */
  function CombineRequestContent(fields: seq<(string, string)>, signatureKey: string, body: Option<Bytes>,
                                 encode: string -> Bytes): (r: Bytes)
    ensures |r| == |encode(SignedContent(fields, signatureKey))| + Length(body)
    ensures r[..|encode(SignedContent(fields, signatureKey))|] == encode(SignedContent(fields, signatureKey))
    ensures r[|encode(SignedContent(fields, signatureKey))|..] == body.GetOr([])
  {
    CombineBytes(Some(encode(SignedContent(fields, signatureKey))), body)
  }

  /** `isScope(int)`: an IPv4 octet, that is, a value that truncation to
      8 bits leaves unchanged. */
  predicate IsScopeInt(n: int)
    ensures IsScopeInt(n) <==> n % 256 == n
  {
    0 <= n <= 255
  }

  /** `isScope(String)`: the trimmed text parsed by `Integer.valueOf`, then
      range-checked; a non-number throws. */
  function IsScopeToken(num: string): (r: Result<bool, AclError>)
    ensures r.Failure? <==> JavaNumbers.ParseInt(Some(JavaText.Trim(num))).None?
    ensures r == Success(true) <==>
      JavaNumbers.ParseInt(Some(JavaText.Trim(num))).Some? && IsScopeInt(JavaNumbers.ParseInt(Some(JavaText.Trim(num))).value)
  {
    match JavaNumbers.ParseInt(Some(JavaText.Trim(num)))
    case None => Failure(NumberFormat)
    case Some(v) => Success(IsScopeInt(v))
  }

  /** Token `j` exists and is an octet. */
  predicate OctetAt(num: seq<string>, j: int) {
    0 <= j < |num| && IsScopeToken(num[j]) == Success(true)
  }

  /** Reading token `j` throws: it is past the end or not a number. */
  predicate ThrowsAt(num: seq<string>, j: int) {
    j >= |num| || (0 <= j && IsScopeToken(num[j]).Failure?)
  }

  /** Every token from `i` up to `j` is an octet. */
  predicate OctetsBetween(num: seq<string>, i: int, j: int) {
    forall k :: i <= k < j ==> OctetAt(num, k)
  }

  /** Token `j` exists and parses, but lies outside 0..255. */
  predicate OutOfScopeAt(num: seq<string>, j: int) {
    0 <= j < |num| && IsScopeToken(num[j]) == Success(false)
  }

  /** The loop of `isScope(String[], index)` from position `i` on: the first
      token that is not an octet decides, false when it parses out of range
      and an exception when it is missing or not a number. */
  function IsScopeFrom(num: seq<string>, i: nat, index: int): (r: Result<bool, AclError>)
    ensures r == Success(true) <==> forall j :: i <= j < index ==> OctetAt(num, j)
    ensures r == Success(false) <==> exists j :: i <= j < index && OctetsBetween(num, i, j) && OutOfScopeAt(num, j)
    ensures r.Failure? <==> exists j :: i <= j < index && OctetsBetween(num, i, j) && ThrowsAt(num, j)
    decreases index - i
  {
    if i >= index then Success(true)
    else if i >= |num| then
      assert !OctetAt(num, i) && ThrowsAt(num, i) && OctetsBetween(num, i, i);
      assert forall j :: i <= j ==> !OutOfScopeAt(num, j);
      Failure(IndexOutOfBounds)
    else
      match IsScopeToken(num[i])
      case Failure(e) =>
        assert ThrowsAt(num, i) && !OctetAt(num, i) && OctetsBetween(num, i, i);
        assert forall j :: i < j ==> !OctetsBetween(num, i, j);
        Failure(e)
      case Success(false) =>
        assert !OctetAt(num, i) && OutOfScopeAt(num, i) && OctetsBetween(num, i, i);
        assert forall j :: i < j ==> !OctetsBetween(num, i, j);
        assert !ThrowsAt(num, i);
        Success(false)
      case Success(true) =>
        assert OctetAt(num, i) && !OutOfScopeAt(num, i) && !ThrowsAt(num, i);
        assert forall j :: i < j ==> (OctetsBetween(num, i, j) <==> OctetsBetween(num, i + 1, j));
        IsScopeFrom(num, i + 1, index)
  }

  /** `isScope(String[], index)`: every one of the first `index` tokens is an
      octet. The first token that is not decides: false when it parses out of
      range, an exception when the index runs past the array or the token is
      not a number. */
  function IsScopeTokens(num: seq<string>, index: int): (r: Result<bool, AclError>)
    ensures r == Success(true) <==> forall j :: 0 <= j < index ==> OctetAt(num, j)
    ensures r == Success(false) <==> exists j :: 0 <= j < index && OctetsBetween(num, 0, j) && OutOfScopeAt(num, j)
    ensures r.Failure? <==> exists j :: 0 <= j < index && OctetsBetween(num, 0, j) && ThrowsAt(num, j)
    ensures index <= 0 ==> r == Success(true)
  {
    IsScopeFrom(num, 0, index)
  }

  /** `isScope(String, index)`: false unless splitting on '.' gives exactly four tokens. */
  function IsScopeAddress(netaddress: string, index: int): (r: Result<bool, AclError>)
    ensures |JavaText.Split(netaddress, '.')| != 4 ==> r == Success(false)
    ensures |JavaText.Split(netaddress, '.')| == 4 ==> r == IsScopeTokens(JavaText.Split(netaddress, '.'), index)
  {
    var tokens := JavaText.Split(netaddress, '.');
    if |tokens| != 4 then Success(false) else IsScopeTokens(tokens, index)
  }

  /** `verify(netaddress, index)`: passes exactly when `isScope` says true. */
  function Verify(netaddress: string, index: int): (r: Result<(), AclError>)
    ensures r.Success? <==> IsScopeAddress(netaddress, index) == Success(true)
    ensures IsScopeAddress(netaddress, index) == Success(false) ==> r == Failure(ScopeViolation(netaddress))
  {
    match IsScopeAddress(netaddress, index)
    case Failure(e) => Failure(e)
    case Success(ok) => if ok then Success(()) else Failure(ScopeViolation(netaddress))
  }

  /** The dotted form of a list of octets. */
  function DottedQuad(octets: seq<int>): string {
    JavaText.JoinWith(seq(|octets|, i requires 0 <= i < |octets| => JavaNumbers.ToDecimal(octets[i])), '.')
  }

  /** A dot-free token that `isScope(String)` accepts. */
  predicate OctetToken(t: string) {
    |t| > 0 && '.' !in t && IsScopeToken(t) == Success(true)
  }

  /** The decimal form of an octet is accepted as an octet. */
  lemma OctetTokenInScope(n: int)
    requires IsScopeInt(n)
    ensures OctetToken(JavaNumbers.ToDecimal(n))
  {
    var s := JavaNumbers.ToDecimal(n);
    assert JavaNumbers.IsDigit(s[0]) && JavaNumbers.IsDigit(s[|s| - 1]);
    JavaText.TrimKeepsTrimmed(s);
    JavaNumbers.ParseToDecimal(n, JavaNumbers.Int32Min, JavaNumbers.Int32Max);
    assert forall i :: 0 <= i < |s| ==> s[i] != '.' by {
      assert forall i :: 0 <= i < |s| ==> JavaNumbers.IsDigit(s[i]);
    }
  }

  /** Tokens that are all octets pass `isScope(String[], index)` for any
      index up to their number. */
  lemma OctetTokensInScope(tokens: seq<string>, index: int)
    requires forall j :: 0 <= j < |tokens| ==> OctetToken(tokens[j])
    requires index <= |tokens|
    ensures IsScopeTokens(tokens, index) == Success(true)
  {
    assert forall j :: 0 <= j < index ==> OctetAt(tokens, j);
  }

  /** Every address written as four in-range octets passes `verify` for any
      index up to 4. */
  lemma DottedQuadVerifies(octets: seq<int>, index: int)
    requires |octets| == 4 && forall i :: 0 <= i < 4 ==> IsScopeInt(octets[i])
    requires index <= 4
    ensures Verify(DottedQuad(octets), index) == Success(())
  {
    var tokens := seq(4, i requires 0 <= i < 4 => JavaNumbers.ToDecimal(octets[i]));
    forall j | 0 <= j < 4
      ensures OctetToken(tokens[j])
    {
      OctetTokenInScope(octets[j]);
    }
    JavaText.SplitJoinRoundTrip(tokens, '.');
    OctetTokensInScope(tokens, index);
  }

  /** `getAddreeStrArray(netaddress, four)`: strip the outer characters of
      `four`, split the rest on ',' and put the address text before '{' in
      front of each piece. */
  function GetAddressStrArray(netaddress: string, four: string): (r: seq<string>)
    ensures |r| == |JavaText.Split(JavaText.Substring(four, 1, |four| - 1), ',')|
    ensures '{' in netaddress ==> forall i :: 0 <= i < |r| ==>
      r[i] == netaddress[..JavaText.IndexOf(netaddress, '{')] + JavaText.Split(JavaText.Substring(four, 1, |four| - 1), ',')[i]
    ensures '{' !in netaddress && |netaddress| > 0 ==> forall i :: 0 <= i < |r| ==>
      r[i] == netaddress[..|netaddress| - 1] + JavaText.Split(JavaText.Substring(four, 1, |four| - 1), ',')[i]
    ensures |netaddress| == 0 ==> r == JavaText.Split(JavaText.Substring(four, 1, |four| - 1), ',')
  {
    var pieces := JavaText.Split(JavaText.Substring(four, 1, |four| - 1), ',');
    var address := JavaText.Substring(netaddress, 0, JavaText.IndexOf(netaddress, '{'));
    var r := seq(|pieces|, i requires 0 <= i < |pieces| => address + pieces[i]);
    assert |netaddress| == 0 ==> address == "" && forall i :: 0 <= i < |r| ==> r[i] == pieces[i];
    r
  }

  /** For a pattern `prefix{p1,p2,...}` the expansion is `prefix` followed by
      each alternative, in order. */
  lemma ExpandAlternatives(prefix: string, alternatives: seq<string>)
    requires '{' !in prefix
    requires |alternatives| > 0
    requires forall i :: 0 <= i < |alternatives| ==> |alternatives[i]| > 0 && ',' !in alternatives[i]
    ensures var four := "{" + JavaText.JoinWith(alternatives, ',') + "}";
      GetAddressStrArray(prefix + four, four) == seq(|alternatives|, i requires 0 <= i < |alternatives| => prefix + alternatives[i])
  {
    var inner := JavaText.JoinWith(alternatives, ',');
    var four := "{" + inner + "}";
    var netaddress := prefix + four;
    assert JavaText.Substring(four, 1, |four| - 1) == inner by {
      assert four[1..|four| - 1] == inner;
    }
    JavaText.SplitJoinRoundTrip(alternatives, ',');
    assert netaddress[|prefix|] == '{';
    assert netaddress[..|prefix|] == prefix;
    assert JavaText.IndexOf(netaddress, '{') == |prefix|;
  }

  /** `isAsterisk`: the text contains '*'. */
  predicate IsAsterisk(s: Option<string>)
    ensures IsAsterisk(s) <==> s.Some? && '*' in s.value
  {
    JavaText.ContainsChar(s, '*')
  }

  /** `isColon`: despite its name, the text contains ','. */
  predicate IsColon(s: Option<string>)
    ensures IsColon(s) <==> s.Some? && ',' in s.value
  {
    JavaText.ContainsChar(s, ',')
  }

  /** `isMinus`: the text contains '-'. */
  predicate IsMinus(s: Option<string>)
    ensures IsMinus(s) <==> s.Some? && '-' in s.value
  {
    JavaText.ContainsChar(s, '-')
  }
}
