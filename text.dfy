/** The few pieces of the .NET string and LINQ libraries that the parser relies on. */
module Text {
  import opened Wrappers

  /** Exactly the characters for which .NET's `char.IsWhiteSpace` holds: the Unicode
      space, line and paragraph separators, the controls U+0009 to U+000D, and U+0085. */
  predicate IsWhiteSpace(c: char)
  {
    var n := c as int;
    (0x09 <= n <= 0x0D) || n == 0x20 || n == 0x85 || n == 0xA0 || n == 0x1680
    || (0x2000 <= n <= 0x200A) || n == 0x2028 || n == 0x2029 || n == 0x202F
    || n == 0x205F || n == 0x3000
  }

  /** `string.IsNullOrWhiteSpace`: null, empty, or only white-space characters. */
  predicate IsNullOrWhiteSpace(s: Nullable<string>)
  {
    match s
    case Null => true
    case Val(t) => forall i | 0 <= i < |t| :: IsWhiteSpace(t[i])
  }

  /** `string.TrimStart(ch)`: the string without its leading run of `ch`. */
  function TrimStart(s: string, ch: char): (r: string)
    ensures |r| <= |s| && r == s[|s| - |r|..]
    ensures forall i | 0 <= i < |s| - |r| :: s[i] == ch
    ensures r == [] || r[0] != ch
  {
    if |s| > 0 && s[0] == ch then TrimStart(s[1..], ch) else s
  }

  /** Stripping a single leading `ch` from a string that does not itself start with `ch`. */
  lemma TrimStartOne(s: string, ch: char)
    requires s == [] || s[0] != ch
    ensures TrimStart([ch] + s, ch) == s
  {
    assert ([ch] + s)[1..] == s;
  }

  /** Every leading `ch` is stripped, not only the first: one more in front changes nothing. */
  lemma TrimStartAbsorbs(s: string, ch: char)
    ensures TrimStart([ch] + s, ch) == TrimStart(s, ch)
  {
    assert ([ch] + s)[1..] == s;
  }

  /** `string.Join(sep, parts)`: the parts with `sep` between each neighbouring pair. */
  function Join(sep: string, parts: seq<string>): string
  {
    if |parts| == 0 then ""
    else if |parts| == 1 then parts[0]
    else parts[0] + sep + Join(sep, parts[1..])
  }

  /** Every part preceded by the separator, concatenated: a second description of `Join`. */
  function Prefixed(sep: string, parts: seq<string>): string
  {
    if parts == [] then "" else sep + parts[0] + Prefixed(sep, parts[1..])
  }

  /** Joining a non-empty list is its first part followed by every later part, each after one separator. */
  lemma {:induction false} JoinIsFirstThenPrefixed(sep: string, parts: seq<string>)
    requires |parts| > 0
    ensures Join(sep, parts) == parts[0] + Prefixed(sep, parts[1..])
  {
    if |parts| > 1 {
      JoinIsFirstThenPrefixed(sep, parts[1..]);
      assert parts[1..][1..] == parts[2..];
    }
  }

  /** LINQ's `FirstOrDefault` position: the index of the first element satisfying `p`,
      or `|s|` when there is none. */
  function FirstIndex<T>(s: seq<T>, p: T -> bool): (i: nat)
    ensures i <= |s|
    ensures forall j | 0 <= j < i :: !p(s[j])
    ensures i < |s| ==> p(s[i])
  {
    if s == [] then 0
    else if p(s[0]) then 0
    else 1 + FirstIndex(s[1..], p)
  }
}
