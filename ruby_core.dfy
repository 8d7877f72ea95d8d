/**
  The few pieces of Ruby's core library that the sigil cop relies on,
  written as total functions over Dafny sequences and strings:
  `Array#take_while`, `Array#reverse`, `Enumerable#find`,
  `String#start_with?` and `String#strip`. Ruby's `nil` is `None`.
 */
module RubyCore {

  datatype Option<+T> = None | Some(value: T)

  /** `Array#take_while`: the longest prefix whose elements all satisfy `p`. */
  function TakeWhile<T>(s: seq<T>, p: T -> bool): (r: seq<T>)
    ensures |r| <= |s| && r == s[..|r|]
    ensures forall i :: 0 <= i < |r| ==> p(r[i])
    ensures |r| < |s| ==> !p(s[|r|])
  {
    if |s| == 0 || !p(s[0]) then [] else [s[0]] + TakeWhile(s[1..], p)
  }

  /** `Array#reverse`. */
  function Reverse<T>(s: seq<T>): (r: seq<T>)
    ensures |r| == |s|
    ensures forall i :: 0 <= i < |s| ==> r[i] == s[|s| - 1 - i]
  {
    if |s| == 0 then [] else Reverse(s[1..]) + [s[0]]
  }

  /** Index of the first element of `s` satisfying `p`, if there is one. */
  function FirstIndex<T>(s: seq<T>, p: T -> bool): (r: Option<nat>)
    ensures r.None? <==> forall i :: 0 <= i < |s| ==> !p(s[i])
    ensures r.Some? ==> r.value < |s| && p(s[r.value])
    ensures r.Some? ==> forall k :: 0 <= k < r.value ==> !p(s[k])
  {
    if |s| == 0 then None
    else if p(s[0]) then Some(0)
    else match FirstIndex(s[1..], p)
      case None => None
      case Some(i) => Some(i + 1)
  }

  /** `Enumerable#find`: the first element satisfying `p`, or `nil`. */
  function Find<T>(s: seq<T>, p: T -> bool): (r: Option<T>)
    ensures r.None? <==> forall i :: 0 <= i < |s| ==> !p(s[i])
    ensures r.Some? ==> exists i :: 0 <= i < |s| && s[i] == r.value && p(s[i])
                          && forall k :: 0 <= k < i ==> !p(s[k])
  {
    match FirstIndex(s, p)
    case None => None
    case Some(i) => Some(s[i])
  }

  /** `String#start_with?` for a single literal prefix: `s` is `prefix` followed by something. */
  predicate StartsWith(s: string, prefix: string)
    ensures StartsWith(s, prefix) <==> exists rest :: s == prefix + rest
  {
    assert |prefix| <= |s| && s[..|prefix|] == prefix ==> s == prefix + s[|prefix|..];
    |prefix| <= |s| && s[..|prefix|] == prefix
  }

  /**
    The characters `String#strip` removes at either end: null, horizontal
    tab, line feed, vertical tab, form feed, carriage return and space.
   */
  predicate IsStripped(c: char)
  {
    c == '\0' || c == '\t' || c == '\n' || c == '\U{B}' || c == '\U{C}' || c == '\r' || c == ' '
  }

  /** `String#lstrip`. */
  function LStrip(s: string): (r: string)
    ensures |r| <= |s| && r == s[|s| - |r|..]
    ensures forall i :: 0 <= i < |s| - |r| ==> IsStripped(s[i])
    ensures |r| > 0 ==> !IsStripped(r[0])
  {
    if |s| > 0 && IsStripped(s[0]) then LStrip(s[1..]) else s
  }

  /** `String#rstrip`. */
  function RStrip(s: string): (r: string)
    ensures |r| <= |s| && r == s[..|r|]
    ensures forall i :: |r| <= i < |s| ==> IsStripped(s[i])
    ensures |r| > 0 ==> !IsStripped(r[|r| - 1])
  {
    if |s| > 0 && IsStripped(s[|s| - 1]) then RStrip(s[..|s| - 1]) else s
  }

  /**
    `String#strip`: what is left once the strippable characters at both
    ends are gone. It is empty exactly when the whole string is blank.
   */
  function Strip(s: string): (r: string)
    ensures |r| <= |s|
    ensures r == [] <==> Blank(s)
    ensures |r| > 0 ==> !IsStripped(r[0]) && !IsStripped(r[|r| - 1])
  {
    LStrip(RStrip(s))
  }

  /** A line is blank exactly when it is made only of strippable characters. */
  predicate Blank(s: string)
  {
    forall i :: 0 <= i < |s| ==> IsStripped(s[i])
  }
}
