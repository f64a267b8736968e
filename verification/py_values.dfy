/**
 * The handful of Python value semantics the authentication layer relies on:
 * dynamically typed arguments, truthiness, `str.strip()`, `list(...)`,
 * and exceptions as a distinguishable outcome.
 */
module PyValues {

  datatype Option<+T> = None | Some(value: T)

  /** The exceptions the modelled code can raise. */
  datatype PyException = TypeError | IndexError | OverflowError

  /** A call that either returns a value or raises. */
  datatype Outcome<+T> = Ok(value: T) | Raise(error: PyException)

  /**
   * A Python value as the core's untyped parameters may receive it.
   * `bool` is folded into `PyInt` (it is a subclass of `int`) and a tuple
   * is a `PyList`.
   */
  datatype PyValue = PyNone | PyInt(i: int) | PyStr(s: string) | PyList(items: seq<PyValue>)

  /** Python's `bool(v)`. */
  predicate Truthy(v: PyValue) {
    match v
    case PyNone => false
    case PyInt(i) => i != 0
    case PyStr(s) => s != ""
    case PyList(items) => items != []
  }

  /**
   * Python's `list(v)`: a list or tuple gives its items, a string its
   * one-character strings, and anything else is not iterable.
   */
  function AsList(v: PyValue): (r: Option<seq<PyValue>>)
    ensures r.None? <==> v.PyNone? || v.PyInt?
    ensures v.PyStr? ==> r.Some? && |r.value| == |v.s| &&
                         forall i :: 0 <= i < |v.s| ==> r.value[i] == PyStr([v.s[i]])
    ensures v.PyList? ==> r == Some(v.items)
  {
    match v
    case PyNone => None
    case PyInt(_) => None
    case PyStr(s) => Some(seq(|s|, i requires 0 <= i < |s| => PyStr([s[i]])))
    case PyList(items) => Some(items)
  }

  /** `str.isspace()` for one character (the Unicode White_Space set Python uses, plus the ASCII separators). */
  predicate IsSpace(c: char) {
    c == ' ' || ('\t' <= c <= '\r') || ('\U{1c}' <= c <= '\U{1f}')
    || c == '\U{85}' || c == '\U{a0}' || c == '\U{1680}'
    || ('\U{2000}' <= c <= '\U{200a}') || c == '\U{2028}' || c == '\U{2029}'
    || c == '\U{202f}' || c == '\U{205f}' || c == '\U{3000}'
  }

  /** `str.lstrip()`: drops the leading whitespace and nothing else. */
  function StripLeft(s: string): (r: string)
    ensures |r| <= |s| && r == s[|s| - |r|..]
    ensures r == [] || !IsSpace(r[0])
    ensures forall i :: 0 <= i < |s| - |r| ==> IsSpace(s[i])
  {
    if s != [] && IsSpace(s[0]) then StripLeft(s[1..]) else s
  }

  /** `str.rstrip()`: drops the trailing whitespace and nothing else. */
  function StripRight(s: string): (r: string)
    ensures |r| <= |s| && r == s[..|r|]
    ensures r == [] || !IsSpace(r[|r| - 1])
    ensures forall i :: |r| <= i < |s| ==> IsSpace(s[i])
  {
    if s != [] && IsSpace(s[|s| - 1]) then StripRight(s[..|s| - 1]) else s
  }

  /**
   * `str.strip()`: the result is a slice of `s` that neither starts nor
   * ends with whitespace, and everything cut off is whitespace.
   */
  function Strip(s: string): (r: string)
    ensures |r| <= |s|
    ensures r == [] || (!IsSpace(r[0]) && !IsSpace(r[|r| - 1]))
    ensures r == [] <==> forall i :: 0 <= i < |s| ==> IsSpace(s[i])
  {
    var l := StripLeft(s);
    var r := StripRight(l);
    r
  }

  /**
   * What `strip` keeps is one slice of `s`, starting where `lstrip` stops;
   * everything before and after that slice is whitespace.
   */
  lemma StripIsSlice(s: string)
    ensures var a := |s| - |StripLeft(s)|;
            var r := Strip(s);
            a + |r| <= |s| && r == s[a..a + |r|]
            && (forall i :: 0 <= i < a ==> IsSpace(s[i]))
            && (forall i :: a + |r| <= i < |s| ==> IsSpace(s[i]))
  {
    StripKeptSlice(s);
    StripCutTail(s);
  }

  /** The slice part of `StripIsSlice`. */
  lemma StripKeptSlice(s: string)
    ensures var a := |s| - |StripLeft(s)|;
            a + |Strip(s)| <= |s| && Strip(s) == s[a..a + |Strip(s)|]
  {
    var l := StripLeft(s);
    var a := |s| - |l|;
    var r := StripRight(l);
    PrefixOfSuffix(s, a, |r|);
  }

  /** Taking a prefix of a suffix is taking a slice. */
  lemma PrefixOfSuffix(s: string, a: nat, n: nat)
    requires a + n <= |s|
    ensures s[a..][..n] == s[a..a + n]
  {
  }

  /** The trailing part of `StripIsSlice`: what `rstrip` cut off is whitespace in `s`. */
  lemma StripCutTail(s: string)
    ensures forall i :: |s| - |StripLeft(s)| + |Strip(s)| <= i < |s| ==> IsSpace(s[i])
  {
    var l := StripLeft(s);
    var a := |s| - |l|;
    var r := StripRight(l);
    forall i | a + |r| <= i < |s|
      ensures IsSpace(s[i])
    {
      assert s[i] == l[i - a];
    }
  }


  /** A string with no surrounding whitespace strips to itself. */
  lemma StripTrimmed(s: string)
    requires s == [] || (!IsSpace(s[0]) && !IsSpace(s[|s| - 1]))
    ensures Strip(s) == s
  {
    if s != [] {
      assert StripLeft(s) == s;
      assert StripRight(s) == s;
    }
  }

  /** Characters that are not literal in a Python regular expression. */
  predicate IsRegexMeta(c: char) {
    c == '.' || c == '^' || c == '$' || c == '*' || c == '+' || c == '?' || c == '{' || c == '}'
    || c == '[' || c == ']' || c == '\\' || c == '|' || c == '(' || c == ')'
  }

  /** A text that a Python regular expression matches literally. */
  predicate NoRegexMeta(s: string) {
    forall i :: 0 <= i < |s| ==> !IsRegexMeta(s[i])
  }

  /** One blank on each side of a trimmed, non-empty string is exactly what `strip` removes. */
  lemma StripPadded(s: string)
    requires s != [] && !IsSpace(s[0]) && !IsSpace(s[|s| - 1])
    ensures Strip(" " + s + " ") == s
  {
    var padded := " " + s + " ";
    assert StripLeft(padded) == s + " " by {
      assert IsSpace(padded[0]);
      assert padded[1..] == s + " ";
      assert StripLeft(s + " ") == s + " " by {
        assert (s + " ")[0] == s[0];
      }
    }
    assert StripRight(s + " ") == s by {
      assert IsSpace((s + " ")[|s|]);
      assert (s + " ")[..|s|] == s;
      assert StripRight(s) == s;
    }
  }

  /** Concatenation is associative. */
  lemma AppendAssoc<T>(a: seq<T>, b: seq<T>, c: seq<T>)
    ensures a + (b + c) == (a + b) + c
  {
  }
}
