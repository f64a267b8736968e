/**
 * PII redaction in log lines: `filter_datum` replaces the value of every
 * listed field by a redaction text, through one `re.sub` with the pattern
 * `(?P<field>f1|f2|...)=[^sep]+`, and `RedactingFormatter` applies it to
 * each formatted record.
 */
module FilteredLogger {
  import opened PyValues

  /** PII_FIELDS: the five personally identifying columns of the user data. */
  const PII_FIELDS: seq<string> := ["name", "email", "phone", "ssn", "password"]

  /** `RedactingFormatter.REDACTION`. */
  const REDACTION: string := "***"

  /** `RedactingFormatter.SEPARATOR`. */
  const SEPARATOR: char := ';'

  // ---------------------------------------------------------------------------
  // The pattern text
  // ---------------------------------------------------------------------------

  /** `sep.join(parts)`. */
  function Join(parts: seq<string>, sep: char): (s: string)
    ensures parts == [] ==> s == []
  {
    if parts == [] then []
    else if |parts| == 1 then parts[0]
    else parts[0] + [sep] + Join(parts[1..], sep)
  }

  /** `s.split(sep)`: the pieces between separators, always at least one. */
  function Split(s: string, sep: char): (parts: seq<string>)
    ensures parts != []
    decreases |s|
  {
    if sep !in s then [s]
    else
      var i := IndexOf(s, sep);
      [s[..i]] + Split(s[i + 1..], sep)
  }

  /** The position of the first `c` in `s`. */
  function IndexOf(s: string, c: char): (i: nat)
    requires c in s
    ensures i < |s| && s[i] == c && c !in s[..i]
  {
    if s[0] == c then 0 else 1 + IndexOf(s[1..], c)
  }

  /** The first separator of `a + [sep] + b` is the one after `a`, when `a` holds none. */
  lemma SplitFirstPiece(a: string, b: string, sep: char)
    requires sep !in a
    ensures Split(a + [sep] + b, sep) == [a] + Split(b, sep)
  {
    var s := a + [sep] + b;
    assert IndexOf(s, sep) == |a| by {
      assert s[|a|] == sep && s[..|a|] == a;
    }
    assert s[..|a|] == a && s[|a| + 1..] == b;
  }

  /** Splitting what was joined gives the parts back, when no part holds the separator. */
  lemma {:induction false} SplitJoin(parts: seq<string>, sep: char)
    requires parts != [] && forall i :: 0 <= i < |parts| ==> sep !in parts[i]
    ensures Split(Join(parts, sep), sep) == parts
  {
    if |parts| > 1 {
      SplitJoin(parts[1..], sep);
      SplitFirstPiece(parts[0], Join(parts[1..], sep), sep);
      assert parts == [parts[0]] + parts[1..];
    }
  }

  /** The fixed text of the pattern around the alternation and around the separator. */
  const GROUP_OPEN: string := "(?P<field>"
  const GROUP_CLOSE: string := ")=[^"
  const CLASS_CLOSE: string := "]+"

  /** `regex["pattern"](fields, sep)`. */
  function PatternText(fields: seq<string>, sep: char): string {
    GROUP_OPEN + Join(fields, '|') + GROUP_CLOSE + [sep] + CLASS_CLOSE
  }

  /** `regex["repl"](redaction)`: the group reference, `=`, then the redaction. */
  function ReplText(redaction: string): string {
    "\\g<field>=" + redaction
  }

  /** The group reference `\g<field>` as it appears in a template. */
  const GROUP_REFERENCE: string := "\\g<field>"

  /**
   * How `re.sub` expands a replacement template for one match whose group
   * `field` matched `group`: `\g<field>` becomes that text and every other
   * character stands for itself. Any other backslash is outside this model
   * (`re` would read it as another escape or reject it): None.
   */
  function ExpandRepl(template: string, group: string): (r: Option<string>)
    ensures '\\' !in template ==> r == Some(template)
    decreases |template|
  {
    if template == [] then Some([])
    else if template[0] == '\\' then
      if |template| >= |GROUP_REFERENCE| && template[..|GROUP_REFERENCE|] == GROUP_REFERENCE then
        match ExpandRepl(template[|GROUP_REFERENCE|..], group)
        case None => None
        case Some(rest) => Some(group + rest)
      else None
    else
      assert template == [template[0]] + template[1..];
      match ExpandRepl(template[1..], group)
      case None => None
      case Some(rest) => Some([template[0]] + rest)
  }

  /**
   * The template `regex["repl"](redaction)` puts the matched field back,
   * then `=`, then the redaction: exactly the text `Sub` writes for a
   * match, provided the redaction holds no backslash.
   */
  lemma ReplExpands(redaction: string, field: string)
    requires '\\' !in redaction
    ensures ExpandRepl(ReplText(redaction), field) == Some(field + "=" + redaction)
  {
    var template := ReplText(redaction);
    assert template[..|GROUP_REFERENCE|] == GROUP_REFERENCE;
    assert template[|GROUP_REFERENCE|..] == "=" + redaction;
    assert '\\' !in "=" + redaction;
    assert field + ("=" + redaction) == field + "=" + redaction;
  }

  /** What the regular-expression compiler reads from a pattern of this shape: the alternatives and the excluded character. */
  datatype Compiled = Compiled(alternatives: seq<string>, separator: char)

  function ParsePattern(text: string): (c: Option<Compiled>)
    ensures c.Some? ==> c.value.alternatives != []
  {
    var n := |text|;
    if n < |GROUP_OPEN| + |GROUP_CLOSE| + 1 + |CLASS_CLOSE| || text[..|GROUP_OPEN|] != GROUP_OPEN
       || text[n - |CLASS_CLOSE|..] != CLASS_CLOSE then None
    else
      var body := text[|GROUP_OPEN|..n - |CLASS_CLOSE| - 1 - |GROUP_CLOSE|];
      if text[n - |CLASS_CLOSE| - 1 - |GROUP_CLOSE|..n - |CLASS_CLOSE| - 1] != GROUP_CLOSE then None
      else Some(Compiled(Split(body, '|'), text[n - |CLASS_CLOSE| - 1]))
  }

  /**
   * The pattern built from the fields compiles back to those fields and
   * that separator; an empty field list gives the single empty
   * alternative.
   */
  lemma PatternRoundTrip(fields: seq<string>, sep: char)
    requires forall i :: 0 <= i < |fields| ==> NoRegexMeta(fields[i])
    ensures ParsePattern(PatternText(fields, sep))
            == Some(Compiled(if fields == [] then [""] else fields, sep))
  {
    var text := PatternText(fields, sep);
    var body := Join(fields, '|');
    var n := |text|;
    assert text[..|GROUP_OPEN|] == GROUP_OPEN;
    assert text[n - |CLASS_CLOSE|..] == CLASS_CLOSE;
    assert text[|GROUP_OPEN|..n - |CLASS_CLOSE| - 1 - |GROUP_CLOSE|] == body;
    assert text[n - |CLASS_CLOSE| - 1 - |GROUP_CLOSE|..n - |CLASS_CLOSE| - 1] == GROUP_CLOSE;
    assert text[n - |CLASS_CLOSE| - 1] == sep;
    if fields != [] {
      forall i | 0 <= i < |fields| ensures '|' !in fields[i] {
        forall j | 0 <= j < |fields[i]| ensures fields[i][j] != '|' {
          assert !IsRegexMeta(fields[i][j]);
        }
      }
      SplitJoin(fields, '|');
    }
  }

  // ---------------------------------------------------------------------------
  // Matching and substitution
  // ---------------------------------------------------------------------------

  /** Alternative `f` matches at the start of `s`: `f=` followed by at least one character other than `sep`. */
  predicate AltMatches(f: string, s: string, sep: char) {
    |f| + 1 < |s| && s[..|f| + 1] == f + "=" && s[|f| + 1] != sep
  }

  /** A mismatch with `f=` at a position inside it rules the alternative out. */
  lemma NotAltMatches(f: string, s: string, sep: char, d: nat)
    requires d <= |f| && d < |s| && s[d] != (f + "=")[d]
    ensures !AltMatches(f, s, sep)
  {
    if |f| + 1 < |s| {
      assert s[..|f| + 1][d] == s[d];
    }
  }

  /** The first alternative that matches at the start of `s`, tried in pattern order. */
  function FirstAlt(alts: seq<string>, s: string, sep: char): (k: Option<nat>)
    ensures k.Some? ==> k.value < |alts| && AltMatches(alts[k.value], s, sep)
  {
    if alts == [] then None
    else if AltMatches(alts[0], s, sep) then Some(0)
    else match FirstAlt(alts[1..], s, sep)
      case None => None
      case Some(k) => Some(k + 1)
  }

  /** The alternative chosen is the first that matches, and there is none only when no alternative matches. */
  lemma {:induction false} FirstAltCharacterised(alts: seq<string>, s: string, sep: char)
    ensures var k := FirstAlt(alts, s, sep);
            k.Some? ==> forall j :: 0 <= j < k.value ==> !AltMatches(alts[j], s, sep)
    ensures FirstAlt(alts, s, sep).None? ==> forall j :: 0 <= j < |alts| ==> !AltMatches(alts[j], s, sep)
  {
    if alts != [] && !AltMatches(alts[0], s, sep) {
      FirstAltCharacterised(alts[1..], s, sep);
      assert forall j :: 1 <= j < |alts| ==> alts[j] == alts[1..][j - 1];
    }
  }

  /** Which alternative comes first depends only on which alternatives match. */
  lemma {:induction false} FirstAltSame(alts: seq<string>, a: string, b: string, sep: char)
    requires forall j :: 0 <= j < |alts| ==> (AltMatches(alts[j], a, sep) <==> AltMatches(alts[j], b, sep))
    ensures FirstAlt(alts, a, sep) == FirstAlt(alts, b, sep)
  {
    if alts != [] && !AltMatches(alts[0], a, sep) {
      FirstAltSame(alts[1..], a, b, sep);
    }
  }

  /** No alternative matches, so there is no first one. */
  lemma NoAltMatches(alts: seq<string>, s: string, sep: char)
    requires forall j :: 0 <= j < |alts| ==> !AltMatches(alts[j], s, sep)
    ensures FirstAlt(alts, s, sep).None?
  {
  }

  /** How far the greedy `[^sep]+` runs: up to the first `sep`, or to the end. */
  function RunLength(s: string, sep: char): (n: nat)
    ensures n <= |s| && sep !in s[..n] && (n == |s| || s[n] == sep)
  {
    if s == [] || s[0] == sep then 0
    else
      var n := 1 + RunLength(s[1..], sep);
      assert s[..n] == [s[0]] + s[1..][..n - 1];
      n
  }

  /** The length of the match of alternative `f` at the start of `s`. */
  function MatchLength(f: string, s: string, sep: char): (e: nat)
    requires AltMatches(f, s, sep)
    ensures |f| + 1 < e <= |s|
  {
    |f| + 1 + RunLength(s[|f| + 1..], sep)
  }

  /**
   * `re.sub` of the compiled pattern over `s`: at each position the first
   * alternative that matches is replaced by itself, `=` and the redaction,
   * and the scan resumes after the match; elsewhere the character is
   * copied.
   */
  function Sub(alts: seq<string>, redaction: string, s: string, sep: char): (r: string)
    decreases |s|
  {
    if s == [] then []
    else match FirstAlt(alts, s, sep)
      case Some(k) => alts[k] + "=" + redaction + Sub(alts, redaction, s[MatchLength(alts[k], s, sep)..], sep)
      case None => [s[0]] + Sub(alts, redaction, s[1..], sep)
  }

  /** One step of the scan where an alternative matches. */
  lemma SubMatchStep(alts: seq<string>, redaction: string, s: string, sep: char, k: nat)
    requires s != [] && FirstAlt(alts, s, sep) == Some(k)
    ensures Sub(alts, redaction, s, sep)
            == alts[k] + "=" + redaction + Sub(alts, redaction, s[MatchLength(alts[k], s, sep)..], sep)
  {
  }

  /** One step of the scan where nothing matches. */
  lemma SubCopyStep(alts: seq<string>, redaction: string, s: string, sep: char)
    requires s != [] && FirstAlt(alts, s, sep).None?
    ensures Sub(alts, redaction, s, sep) == [s[0]] + Sub(alts, redaction, s[1..], sep)
  {
  }

  /**
   * `filter_datum(fields, redaction, message, separator)`: the substitution
   * of the compiled pattern. The fields must be literal text to the
   * regular-expression compiler, the separator must be literal inside a
   * character class, and the redaction must hold no backslash (the
   * replacement template would interpret it).
   */
  function FilterDatum(fields: seq<string>, redaction: string, message: string, separator: char): (r: string)
    requires forall i :: 0 <= i < |fields| ==> NoRegexMeta(fields[i])
    requires !IsRegexMeta(separator) && '\\' !in redaction
    ensures var alts := if fields == [] then [""] else fields;
            r == Sub(alts, redaction, message, separator)
  {
    PatternRoundTrip(fields, separator);
    var compiled := ParsePattern(PatternText(fields, separator)).value;
    Sub(compiled.alternatives, redaction, message, compiled.separator)
  }

  // ---------------------------------------------------------------------------
  // What the substitution does
  // ---------------------------------------------------------------------------

  /** No alternative matches at any position of `s`. */
  predicate NothingToRedact(alts: seq<string>, s: string, sep: char) {
    forall i :: 0 <= i < |s| ==> FirstAlt(alts, s[i..], sep).None?
  }

  /** A message in which no field is followed by `=` and a non-empty value comes back unchanged. */
  lemma {:induction false} UnchangedWithoutMatch(alts: seq<string>, redaction: string, s: string, sep: char)
    requires NothingToRedact(alts, s, sep)
    ensures Sub(alts, redaction, s, sep) == s
  {
    if s != [] {
      assert s[0..] == s;
      assert forall i :: 0 <= i < |s| - 1 ==> s[1..][i..] == s[i + 1..];
      UnchangedWithoutMatch(alts, redaction, s[1..], sep);
    }
  }

  /** Every match needs an `=`, so a text without one is never changed. */
  lemma NoEqualsUnchanged(alts: seq<string>, redaction: string, s: string, sep: char)
    requires '=' !in s
    ensures Sub(alts, redaction, s, sep) == s
  {
    forall i | 0 <= i < |s| ensures FirstAlt(alts, s[i..], sep).None? {
      forall j | 0 <= j < |alts| ensures !AltMatches(alts[j], s[i..], sep) {
        var f := alts[j];
        if |f| < |s[i..]| {
          assert s[i..][|f|] != '=' by {
            assert s[i..][|f|] == s[i + |f|];
          }
          NotAltMatches(f, s[i..], sep, |f|);
        }
      }
    }
    UnchangedWithoutMatch(alts, redaction, s, sep);
  }

  /** A field followed by `=` and then directly by the separator (or by nothing) is left alone. */
  lemma EmptyValueNotRedacted(alts: seq<string>, f: string, rest: string, sep: char)
    requires rest == [] || rest[0] == sep
    ensures !AltMatches(f, f + "=" + rest, sep)
  {
  }

  /** Alternatives `f` that contain neither `=` nor the separator. */
  predicate PlainAlternatives(alts: seq<string>, sep: char) {
    forall j :: 0 <= j < |alts| ==> '=' !in alts[j] && sep !in alts[j]
  }

  /** An alternative without `=` or the separator matches the same way whether or not a separator follows. */
  lemma AltBeforeSeparator(f: string, x: string, y: string, sep: char)
    requires '=' !in f && sep !in f && sep != '='
    requires y == [] || y[0] == sep
    ensures AltMatches(f, x + y, sep) <==> AltMatches(f, x, sep)
  {
    var s := x + y;
    if |f| + 1 < |x| {
      assert s[..|f| + 1] == x[..|f| + 1] && s[|f| + 1] == x[|f| + 1];
    } else if y != [] && |x| <= |f| {
      assert s[|x|] == sep;
      assert (f + "=")[|x|] != sep;
      NotAltMatches(f, s, sep, |x|);
    }
  }

  /** A separator after `x` changes neither which alternative matches at its start nor how long the match is. */
  lemma FirstAltBeforeSeparator(alts: seq<string>, x: string, y: string, sep: char)
    requires PlainAlternatives(alts, sep) && sep != '='
    requires y == [] || y[0] == sep
    ensures FirstAlt(alts, x + y, sep) == FirstAlt(alts, x, sep)
  {
    forall j | 0 <= j < |alts| ensures AltMatches(alts[j], x + y, sep) <==> AltMatches(alts[j], x, sep) {
      AltBeforeSeparator(alts[j], x, y, sep);
    }
    FirstAltSame(alts, x + y, x, sep);
  }

  /** A match inside `x` ends inside `x`: the separator that starts `y` stops the run. */
  lemma MatchBeforeSeparator(f: string, x: string, y: string, sep: char)
    requires AltMatches(f, x, sep) && AltMatches(f, x + y, sep)
    requires y == [] || y[0] == sep
    ensures MatchLength(f, x + y, sep) == MatchLength(f, x, sep)
    ensures (x + y)[MatchLength(f, x, sep)..] == x[MatchLength(f, x, sep)..] + y
  {
    assert (x + y)[|f| + 1..] == x[|f| + 1..] + y;
    RunSplit(x[|f| + 1..], y, sep);
  }

  /** The step of `SubSplit` where an alternative matches at the start of `x`. */
  lemma SubSplitMatch(alts: seq<string>, redaction: string, x: string, y: string, sep: char, k: nat)
    requires PlainAlternatives(alts, sep) && sep != '='
    requires y == [] || y[0] == sep
    requires x != [] && FirstAlt(alts, x, sep) == Some(k)
    requires var e := MatchLength(alts[k], x, sep);
             Sub(alts, redaction, x[e..] + y, sep) == Sub(alts, redaction, x[e..], sep) + Sub(alts, redaction, y, sep)
    ensures Sub(alts, redaction, x + y, sep) == Sub(alts, redaction, x, sep) + Sub(alts, redaction, y, sep)
  {
    var e := MatchLength(alts[k], x, sep);
    SubMatchAcross(alts, redaction, x, y, sep, k);
    SubMatchStep(alts, redaction, x, sep, k);
    AppendAssoc(alts[k] + "=" + redaction, Sub(alts, redaction, x[e..], sep), Sub(alts, redaction, y, sep));
  }

  /** The match at the start of `x` is the match at the start of `x + y`, and the scan resumes inside `x`. */
  lemma SubMatchAcross(alts: seq<string>, redaction: string, x: string, y: string, sep: char, k: nat)
    requires PlainAlternatives(alts, sep) && sep != '='
    requires y == [] || y[0] == sep
    requires x != [] && FirstAlt(alts, x, sep) == Some(k)
    ensures Sub(alts, redaction, x + y, sep)
            == alts[k] + "=" + redaction + Sub(alts, redaction, x[MatchLength(alts[k], x, sep)..] + y, sep)
  {
    FirstAltBeforeSeparator(alts, x, y, sep);
    MatchBeforeSeparator(alts[k], x, y, sep);
    SubMatchStep(alts, redaction, x + y, sep, k);
  }

  /** The step of `SubSplit` where no alternative matches at the start of `x`. */
  lemma SubSplitCopy(alts: seq<string>, redaction: string, x: string, y: string, sep: char)
    requires PlainAlternatives(alts, sep) && sep != '='
    requires y == [] || y[0] == sep
    requires x != [] && FirstAlt(alts, x, sep).None?
    requires Sub(alts, redaction, x[1..] + y, sep) == Sub(alts, redaction, x[1..], sep) + Sub(alts, redaction, y, sep)
    ensures Sub(alts, redaction, x + y, sep) == Sub(alts, redaction, x, sep) + Sub(alts, redaction, y, sep)
  {
    SubCopyAcross(alts, redaction, x, y, sep);
    SubCopyStep(alts, redaction, x, sep);
    AppendAssoc([x[0]], Sub(alts, redaction, x[1..], sep), Sub(alts, redaction, y, sep));
  }

  /** Nothing matches at the start of `x + y` either, so its first character is copied. */
  lemma SubCopyAcross(alts: seq<string>, redaction: string, x: string, y: string, sep: char)
    requires PlainAlternatives(alts, sep) && sep != '='
    requires y == [] || y[0] == sep
    requires x != [] && FirstAlt(alts, x, sep).None?
    ensures Sub(alts, redaction, x + y, sep) == [x[0]] + Sub(alts, redaction, x[1..] + y, sep)
  {
    var s := x + y;
    FirstAltBeforeSeparator(alts, x, y, sep);
    assert s[0] == x[0] && s[1..] == x[1..] + y;
    SubCopyStep(alts, redaction, s, sep);
  }

  /**
   * A separator ends every match, so the substitution works on the text
   * before a separator and on the rest independently.
   */
  lemma {:induction false} SubSplit(alts: seq<string>, redaction: string, x: string, y: string, sep: char)
    requires PlainAlternatives(alts, sep) && sep != '='
    requires y == [] || y[0] == sep
    ensures Sub(alts, redaction, x + y, sep) == Sub(alts, redaction, x, sep) + Sub(alts, redaction, y, sep)
    decreases |x|
  {
    if x == [] {
      assert Sub(alts, redaction, x, sep) == [];
      assert x + y == y;
    } else {
      match FirstAlt(alts, x, sep)
      case Some(k) =>
        SubSplit(alts, redaction, x[MatchLength(alts[k], x, sep)..], y, sep);
        SubSplitMatch(alts, redaction, x, y, sep, k);
      case None =>
        SubSplit(alts, redaction, x[1..], y, sep);
        SubSplitCopy(alts, redaction, x, y, sep);
    }
  }

  /** The run of non-separators stops at a separator that starts `y`. */
  lemma {:induction false} RunSplit(x: string, y: string, sep: char)
    requires y == [] || y[0] == sep
    ensures RunLength(x + y, sep) == RunLength(x, sep)
  {
    if x == [] {
      assert x + y == y;
    } else {
      assert (x + y)[0] == x[0] && (x + y)[1..] == x[1..] + y;
      if x[0] != sep {
        RunSplit(x[1..], y, sep);
      }
    }
  }

  /** One `key=value` entry of a log line. */
  datatype Pair = Pair(key: string, value: string)

  /** An entry whose key and value hold neither `=` nor the separator. */
  predicate PlainPair(p: Pair, sep: char) {
    '=' !in p.key && sep !in p.key && '=' !in p.value && sep !in p.value
  }

  /** `key=value`. */
  function PairText(p: Pair): string {
    p.key + "=" + p.value
  }

  /** The key ends with one of the alternatives (as a whole key or as its tail). */
  predicate KeyEndsWithField(alts: seq<string>, key: string) {
    exists i :: 0 <= i <= |key| && key[i..] in alts
  }

  /** An entry is redacted when its key ends with a field and its value is not empty. */
  function RedactPair(alts: seq<string>, redaction: string, p: Pair): (q: Pair)
    ensures q.key == p.key
    ensures q.value == if KeyEndsWithField(alts, p.key) && p.value != [] then redaction else p.value
  {
    if KeyEndsWithField(alts, p.key) && p.value != [] then Pair(p.key, redaction) else p
  }

  /** At the start of `key=value`, an alternative matches exactly when it is the whole key and the value is not empty. */
  lemma PairAltMatches(f: string, p: Pair, sep: char)
    requires '=' !in f && PlainPair(p, sep)
    ensures AltMatches(f, PairText(p), sep) <==> f == p.key && p.value != []
  {
    var s := PairText(p);
    assert s[..|p.key|] == p.key && s[|p.key|] == '=' && s[|p.key| + 1..] == p.value;
    if |f| < |p.key| {
      assert s[|f|] == p.key[|f|];
      NotAltMatches(f, s, sep, |f|);
    } else if |f| > |p.key| {
      assert (f + "=")[|p.key|] == f[|p.key|];
      NotAltMatches(f, s, sep, |p.key|);
    } else if f != p.key {
      var d :| 0 <= d < |f| && f[d] != p.key[d];
      assert s[d] == p.key[d] && (f + "=")[d] == f[d];
      NotAltMatches(f, s, sep, d);
    } else if p.value != [] {
      assert s[..|f| + 1] == f + "=";
      assert s[|f| + 1] == p.value[0];
    }
  }

  /** A key ends with a field when it is one, or when its tail after the first character ends with one. */
  lemma KeyEndsWithFieldTail(alts: seq<string>, key: string)
    requires key != []
    ensures KeyEndsWithField(alts, key) <==> key in alts || KeyEndsWithField(alts, key[1..])
  {
    if KeyEndsWithField(alts, key) {
      var i :| 0 <= i <= |key| && key[i..] in alts;
      if i > 0 {
        assert key[1..][i - 1..] == key[i..];
      }
    }
    if KeyEndsWithField(alts, key[1..]) {
      var i :| 0 <= i <= |key[1..]| && key[1..][i..] in alts;
      assert key[i + 1..] == key[1..][i..];
    }
    if key in alts {
      assert key[0..] == key;
    }
  }

  /** The match of the whole key runs to the end of the entry, so the whole value is replaced. */
  lemma SubPairRedacted(alts: seq<string>, redaction: string, p: Pair, sep: char, k: nat)
    requires PlainPair(p, sep) && p.value != []
    requires FirstAlt(alts, PairText(p), sep) == Some(k) && alts[k] == p.key
    ensures Sub(alts, redaction, PairText(p), sep) == PairText(Pair(p.key, redaction))
  {
    var s := PairText(p);
    assert s[|p.key| + 1..] == p.value;
    assert RunLength(p.value, sep) == |p.value|;
    assert s[MatchLength(alts[k], s, sep)..] == [];
    SubMatchStep(alts, redaction, s, sep, k);
  }

  /** An entry with an empty key is `=` and a value without `=`, which is copied. */
  lemma SubPairEmptyKey(alts: seq<string>, redaction: string, p: Pair, sep: char)
    requires PlainPair(p, sep) && p.key == []
    requires FirstAlt(alts, PairText(p), sep).None? && !(p.key in alts && p.value != [])
    ensures Sub(alts, redaction, PairText(p), sep) == PairText(RedactPair(alts, redaction, p))
  {
    var s := PairText(p);
    SubCopyStep(alts, redaction, s, sep);
    assert s[0] == '=' && s[1..] == p.value;
    NoEqualsUnchanged(alts, redaction, p.value, sep);
    assert KeyEndsWithField(alts, p.key) ==> p.key in alts by {
      if KeyEndsWithField(alts, p.key) {
        var i :| 0 <= i <= |p.key| && p.key[i..] in alts;
        assert p.key[i..] == p.key;
      }
    }
  }

  /** When the whole key is not redacted, redacting an entry is redacting it without its first key character. */
  lemma RedactPairTail(alts: seq<string>, redaction: string, p: Pair)
    requires p.key != [] && !(p.key in alts && p.value != [])
    ensures PairText(RedactPair(alts, redaction, p))
            == [p.key[0]] + PairText(RedactPair(alts, redaction, Pair(p.key[1..], p.value)))
  {
    var shorter := Pair(p.key[1..], p.value);
    assert RedactPair(alts, redaction, p).value == RedactPair(alts, redaction, shorter).value by {
      KeyEndsWithFieldTail(alts, p.key);
    }
    assert p.key == [p.key[0]] + shorter.key;
  }

  /** An entry whose whole key is not redacted: its first character is copied and the rest is an entry again. */
  lemma SubPairCopied(alts: seq<string>, redaction: string, p: Pair, sep: char)
    requires p.key != [] && FirstAlt(alts, PairText(p), sep).None? && !(p.key in alts && p.value != [])
    requires var shorter := Pair(p.key[1..], p.value);
             Sub(alts, redaction, PairText(shorter), sep) == PairText(RedactPair(alts, redaction, shorter))
    ensures Sub(alts, redaction, PairText(p), sep) == PairText(RedactPair(alts, redaction, p))
  {
    var s := PairText(p);
    assert s[0] == p.key[0] && s[1..] == PairText(Pair(p.key[1..], p.value));
    SubCopyStep(alts, redaction, s, sep);
    RedactPairTail(alts, redaction, p);
  }

  /**
   * On one entry the substitution redacts the value exactly when some
   * field is the key or a tail of it and the value is not empty, keeping
   * the key: `xpassword=1` becomes `xpassword=***`.
   */
  lemma {:induction false} SubPair(alts: seq<string>, redaction: string, p: Pair, sep: char)
    requires PlainAlternatives(alts, sep) && PlainPair(p, sep) && sep != '='
    ensures Sub(alts, redaction, PairText(p), sep) == PairText(RedactPair(alts, redaction, p))
    decreases |p.key|
  {
    var s := PairText(p);
    forall j | 0 <= j < |alts| ensures AltMatches(alts[j], s, sep) <==> alts[j] == p.key && p.value != [] {
      PairAltMatches(alts[j], p, sep);
    }
    match FirstAlt(alts, s, sep)
    case Some(k) =>
      SubPairRedacted(alts, redaction, p, sep, k);
      assert KeyEndsWithField(alts, p.key) by {
        assert p.key[0..] == p.key;
      }
    case None =>
      assert !(p.key in alts && p.value != []) by {
        FirstAltCharacterised(alts, s, sep);
      }
      if p.key == [] {
        SubPairEmptyKey(alts, redaction, p, sep);
      } else {
        SubPair(alts, redaction, Pair(p.key[1..], p.value), sep);
        SubPairCopied(alts, redaction, p, sep);
      }
  }

  /** `sep.join(f"{key}={value}" for each entry)`. */
  function Render(pairs: seq<Pair>, sep: char): string {
    if pairs == [] then []
    else if |pairs| == 1 then PairText(pairs[0])
    else PairText(pairs[0]) + [sep] + Render(pairs[1..], sep)
  }

  /** Each entry redacted on its own. */
  function RedactAll(alts: seq<string>, redaction: string, pairs: seq<Pair>): (r: seq<Pair>)
    ensures |r| == |pairs| && forall i :: 0 <= i < |pairs| ==> r[i] == RedactPair(alts, redaction, pairs[i])
  {
    if pairs == [] then [] else [RedactPair(alts, redaction, pairs[0])] + RedactAll(alts, redaction, pairs[1..])
  }

  /** No alternative matches at a separator: every match starts with a field and `=`. */
  lemma SeparatorNotMatched(alts: seq<string>, t: string, sep: char)
    requires PlainAlternatives(alts, sep) && sep != '='
    requires t != [] && t[0] == sep
    ensures FirstAlt(alts, t, sep).None?
  {
    forall j | 0 <= j < |alts| ensures !AltMatches(alts[j], t, sep) {
      assert (alts[j] + "=")[0] != sep;
      NotAltMatches(alts[j], t, sep, 0);
    }
    NoAltMatches(alts, t, sep);
  }

  /**
   * The shape the unit tests log, `k1=v1;k2=v2;...`: every entry whose key
   * ends with a field and whose value is not empty has its value replaced
   * by the redaction, and everything else (keys, separators, other
   * values) is kept.
   */
  lemma {:induction false} RedactsRenderedPairs(alts: seq<string>, redaction: string, pairs: seq<Pair>, sep: char)
    requires PlainAlternatives(alts, sep) && sep != '='
    requires forall i :: 0 <= i < |pairs| ==> PlainPair(pairs[i], sep)
    ensures Sub(alts, redaction, Render(pairs, sep), sep) == Render(RedactAll(alts, redaction, pairs), sep)
  {
    if |pairs| == 1 {
      SubPair(alts, redaction, pairs[0], sep);
    } else if |pairs| > 1 {
      var rest := Render(pairs[1..], sep);
      var tail := [sep] + rest;
      var redacted := RedactAll(alts, redaction, pairs);
      assert Render(pairs, sep) == PairText(pairs[0]) + tail;
      assert Render(redacted, sep) == PairText(redacted[0]) + ([sep] + Render(RedactAll(alts, redaction, pairs[1..]), sep)) by {
        assert redacted[1..] == RedactAll(alts, redaction, pairs[1..]);
      }
      SubSplit(alts, redaction, PairText(pairs[0]), tail, sep);
      SubPair(alts, redaction, pairs[0], sep);
      SeparatorNotMatched(alts, tail, sep);
      assert tail[0] == sep && tail[1..] == rest;
      SubCopyStep(alts, redaction, tail, sep);
      RedactsRenderedPairs(alts, redaction, pairs[1..], sep);
    }
  }

  /** The number of occurrences of `c` in `s`. */
  function Count(s: string, c: char): (n: nat)
    ensures n <= |s|
    ensures n == 0 <==> c !in s
  {
    if s == [] then 0 else (if s[0] == c then 1 else 0) + Count(s[1..], c)
  }

  lemma {:induction false} CountConcat(a: string, b: string, c: char)
    ensures Count(a + b, c) == Count(a, c) + Count(b, c)
  {
    if a == [] {
      assert a + b == b;
    } else {
      assert (a + b)[0] == a[0] && (a + b)[1..] == a[1..] + b;
      CountConcat(a[1..], b, c);
    }
  }

  /**
   * When neither the fields nor the redaction hold the separator, the
   * line keeps exactly as many separators as it had: values are replaced,
   * entries are never merged or split.
   */
  lemma {:induction false} SeparatorsKept(alts: seq<string>, redaction: string, s: string, sep: char)
    requires PlainAlternatives(alts, sep) && sep !in redaction && sep != '='
    ensures Count(Sub(alts, redaction, s, sep), sep) == Count(s, sep)
    decreases |s|
  {
    if s != [] {
      match FirstAlt(alts, s, sep)
      case Some(k) =>
        SeparatorsKept(alts, redaction, s[MatchLength(alts[k], s, sep)..], sep);
        SeparatorsKeptMatch(alts, redaction, s, sep, k);
      case None =>
        SeparatorsKept(alts, redaction, s[1..], sep);
        SeparatorsKeptCopy(alts, redaction, s, sep);
    }
  }

  /** The step of `SeparatorsKept` where an alternative matches: the match holds no separator, nor does its replacement. */
  lemma SeparatorsKeptMatch(alts: seq<string>, redaction: string, s: string, sep: char, k: nat)
    requires PlainAlternatives(alts, sep) && sep !in redaction && sep != '='
    requires s != [] && FirstAlt(alts, s, sep) == Some(k)
    requires var e := MatchLength(alts[k], s, sep);
             Count(Sub(alts, redaction, s[e..], sep), sep) == Count(s[e..], sep)
    ensures Count(Sub(alts, redaction, s, sep), sep) == Count(s, sep)
  {
    var f := alts[k];
    var e := MatchLength(f, s, sep);
    MatchHoldsNoSeparator(f, s, sep);
    CountConcat(f, "=", sep);
    CountConcat(f + "=", redaction, sep);
    CountConcat(f + "=" + redaction, Sub(alts, redaction, s[e..], sep), sep);
    SubMatchStep(alts, redaction, s, sep, k);
  }

  /** The text a match covers holds no separator. */
  lemma MatchHoldsNoSeparator(f: string, s: string, sep: char)
    requires AltMatches(f, s, sep) && sep !in f && sep != '='
    ensures Count(s, sep) == Count(s[MatchLength(f, s, sep)..], sep)
  {
    var e := MatchLength(f, s, sep);
    var run := RunLength(s[|f| + 1..], sep);
    assert s == s[..e] + s[e..];
    assert s[..e] == (f + "=") + s[|f| + 1..][..run];
    CountConcat(s[..e], s[e..], sep);
    CountConcat(f + "=", s[|f| + 1..][..run], sep);
    CountConcat(f, "=", sep);
  }

  /** The step of `SeparatorsKept` where nothing matches: the copied character is counted on both sides. */
  lemma SeparatorsKeptCopy(alts: seq<string>, redaction: string, s: string, sep: char)
    requires s != [] && FirstAlt(alts, s, sep).None?
    requires Count(Sub(alts, redaction, s[1..], sep), sep) == Count(s[1..], sep)
    ensures Count(Sub(alts, redaction, s, sep), sep) == Count(s, sep)
  {
    assert s == [s[0]] + s[1..];
    CountConcat([s[0]], s[1..], sep);
    CountConcat([s[0]], Sub(alts, redaction, s[1..], sep), sep);
    SubCopyStep(alts, redaction, s, sep);
  }

  /** No alternative holds the character `c`. */
  predicate NoFieldHolds(alts: seq<string>, c: char) {
    forall j :: 0 <= j < |alts| ==> c !in alts[j]
  }

  /**
   * A head without `=` whose last character no field contains is copied
   * as it is: no match can start in it, and the rest is substituted on its
   * own.
   */
  lemma {:induction false} SubHeadKept(alts: seq<string>, redaction: string, head: string, rest: string, sep: char)
    requires head != [] && '=' !in head && NoFieldHolds(alts, head[|head| - 1])
    ensures Sub(alts, redaction, head + rest, sep) == head + Sub(alts, redaction, rest, sep)
    decreases |head|
  {
    if |head| > 1 {
      var tail := head[1..];
      assert tail[|tail| - 1] == head[|head| - 1];
      assert '=' !in tail by {
        assert forall i :: 0 <= i < |tail| ==> tail[i] == head[i + 1];
      }
      SubHeadKept(alts, redaction, tail, rest, sep);
    }
    SubHeadJoin(alts, redaction, head, rest, sep);
  }

  /** The step of `SubHeadKept`: the first character is copied and the rest of the head is kept by induction. */
  lemma SubHeadJoin(alts: seq<string>, redaction: string, head: string, rest: string, sep: char)
    requires head != [] && '=' !in head && NoFieldHolds(alts, head[|head| - 1])
    requires |head| > 1 ==>
               Sub(alts, redaction, head[1..] + rest, sep) == head[1..] + Sub(alts, redaction, rest, sep)
    ensures Sub(alts, redaction, head + rest, sep) == head + Sub(alts, redaction, rest, sep)
  {
    SubHeadStep(alts, redaction, head, rest, sep);
    if |head| > 1 {
      AppendAssoc([head[0]], head[1..], Sub(alts, redaction, rest, sep));
      assert [head[0]] + head[1..] == head;
    } else {
      assert head[1..] + rest == rest && head == [head[0]];
    }
  }

  /** The first character of such a head is copied. */
  lemma SubHeadStep(alts: seq<string>, redaction: string, head: string, rest: string, sep: char)
    requires head != [] && '=' !in head && NoFieldHolds(alts, head[|head| - 1])
    ensures Sub(alts, redaction, head + rest, sep) == [head[0]] + Sub(alts, redaction, head[1..] + rest, sep)
  {
    HeadNotMatched(alts, head, rest, sep);
    SubCopyStep(alts, redaction, head + rest, sep);
    assert (head + rest)[0] == head[0] && (head + rest)[1..] == head[1..] + rest;
  }

  /** No alternative matches at the start of such a head: the `=` it needs would fall inside the head or on its last character. */
  lemma HeadNotMatched(alts: seq<string>, head: string, rest: string, sep: char)
    requires head != [] && '=' !in head && NoFieldHolds(alts, head[|head| - 1])
    ensures FirstAlt(alts, head + rest, sep).None?
  {
    forall j | 0 <= j < |alts| ensures !AltMatches(alts[j], head + rest, sep) {
      HeadAltNotMatched(alts[j], head, rest, sep);
    }
    NoAltMatches(alts, head + rest, sep);
  }

  /** One alternative `f` not holding the head's last character does not match at the start of `head + rest`. */
  lemma HeadAltNotMatched(f: string, head: string, rest: string, sep: char)
    requires head != [] && '=' !in head && head[|head| - 1] !in f
    ensures !AltMatches(f, head + rest, sep)
  {
    var s := head + rest;
    if |f| < |head| {
      assert s[|f|] == head[|f|] && head[|f|] != '=';
      NotAltMatches(f, s, sep, |f|);
    } else {
      assert s[|head| - 1] == head[|head| - 1] && (f + "=")[|head| - 1] == f[|head| - 1];
      NotAltMatches(f, s, sep, |head| - 1);
    }
  }

  // ---------------------------------------------------------------------------
  // The formatter
  // ---------------------------------------------------------------------------

  /** A log record as the formatter's `FORMAT` reads it; `asctime` is the clock's text. */
  datatype LogRecord = LogRecord(name: string, levelname: string, asctime: string, message: string)

  /** What `format` may be handed: a `LogRecord`, or anything else. */
  datatype FormatArgument = Record(record: LogRecord) | NotARecord

  /** `%-15s`: left-justified in a field of at least fifteen characters. */
  function PadRight(s: string, width: nat): (r: string)
    ensures |r| == if |s| < width then width else |s|
    ensures r[..|s|] == s && forall i :: |s| <= i < |r| ==> r[i] == ' '
  {
    if |s| >= width then s else s + seq(width - |s|, _ => ' ')
  }

  /** The part of FORMAT before the message: `[HOLBERTON] name levelname asctime: `. */
  function FormatHead(record: LogRecord): string {
    "[HOLBERTON] " + record.name + " " + record.levelname + " " + PadRight(record.asctime, 15) + ": "
  }

  /** `logging.Formatter(FORMAT).format(record)`. */
  function FormatLine(record: LogRecord): string {
    FormatHead(record) + record.message
  }

  /** A `RedactingFormatter` holds the fields it redacts. */
  datatype RedactingFormatter = RedactingFormatter(fields: seq<string>)

  /**
   * `RedactingFormatter.format(record)`: a TypeError for anything but a
   * log record; otherwise the formatted line passed through
   * `filter_datum` with REDACTION and SEPARATOR.
   */
  function Format(formatter: RedactingFormatter, arg: FormatArgument): (r: Outcome<string>)
    requires forall i :: 0 <= i < |formatter.fields| ==> NoRegexMeta(formatter.fields[i])
    ensures arg.NotARecord? <==> r == Raise(TypeError)
    ensures arg.Record? ==> r == Ok(FilterDatum(formatter.fields, REDACTION, FormatLine(arg.record), SEPARATOR))
  {
    if arg.NotARecord? then Raise(TypeError)
    else Ok(FilterDatum(formatter.fields, REDACTION, FormatLine(arg.record), SEPARATOR))
  }

  /**
   * The formatter only ever redacts inside the message: with fields
   * without blanks and a header without `=`, the line is the header
   * followed by the message as `filter_datum` redacts it.
   */
  lemma FormatRedactsMessageOnly(formatter: RedactingFormatter, record: LogRecord)
    requires forall i :: 0 <= i < |formatter.fields| ==> NoRegexMeta(formatter.fields[i]) && ' ' !in formatter.fields[i]
    requires '=' !in record.name && '=' !in record.levelname && '=' !in record.asctime
    ensures Format(formatter, Record(record))
            == Ok(FormatHead(record) + FilterDatum(formatter.fields, REDACTION, record.message, SEPARATOR))
  {
    var alts := if formatter.fields == [] then [""] else formatter.fields;
    var head := FormatHead(record);
    var padded := PadRight(record.asctime, 15);
    assert '=' !in padded by {
      forall i | 0 <= i < |padded| ensures padded[i] != '=' {
        if i < |record.asctime| {
          assert padded[i] == padded[..|record.asctime|][i] == record.asctime[i];
        }
      }
    }
    assert '=' !in head by {
      assert head == "[HOLBERTON] " + record.name + " " + record.levelname + " " + padded + ": ";
      assert '=' !in "[HOLBERTON] " && '=' !in " " && '=' !in ": ";
    }
    assert head[|head| - 1] == ' ';
    SubHeadKept(alts, REDACTION, head, record.message, SEPARATOR);
  }

  /**
   * The formatter built over PII_FIELDS meets the conditions of
   * `FormatRedactsMessageOnly`: its log lines keep their header and
   * redact the five fields in the message.
   */
  lemma PiiFormatterRedactsMessageOnly(record: LogRecord)
    requires '=' !in record.name && '=' !in record.levelname && '=' !in record.asctime
    ensures Format(RedactingFormatter(PII_FIELDS), Record(record))
            == Ok(FormatHead(record) + FilterDatum(PII_FIELDS, REDACTION, record.message, SEPARATOR))
  {
    forall i | 0 <= i < |PII_FIELDS|
      ensures NoRegexMeta(PII_FIELDS[i]) && ' ' !in PII_FIELDS[i]
    {
    }
    FormatRedactsMessageOnly(RedactingFormatter(PII_FIELDS), record);
  }

  /** The fields of the unit test are literal text holding neither `=` nor `;`, and `xxx` holds no backslash. */
  lemma TestFieldsPlain()
    ensures NoRegexMeta("password") && NoRegexMeta("date_of_birth") && '\\' !in "xxx"
    ensures PlainAlternatives(["password", "date_of_birth"], ';')
  {
  }

  /** Of the unit test's keys, `name` is kept and the other two are redacted. */
  lemma TestKeysRedacted(name: string, password: string, birth: string)
    requires password != [] && birth != []
    ensures RedactAll(["password", "date_of_birth"], "xxx",
                      [Pair("name", name), Pair("password", password), Pair("date_of_birth", birth)])
            == [Pair("name", name), Pair("password", "xxx"), Pair("date_of_birth", "xxx")]
  {
    var alts := ["password", "date_of_birth"];
    assert !KeyEndsWithField(alts, "name") by {
      forall i | 0 <= i <= 4 ensures "name"[i..] !in alts {
        assert |"name"[i..]| < |"password"| < |"date_of_birth"|;
      }
    }
    assert KeyEndsWithField(alts, "password") && KeyEndsWithField(alts, "date_of_birth") by {
      assert "password"[0..] == "password" && "date_of_birth"[0..] == "date_of_birth";
    }
  }

  /**
   * The unit test's shape: with the fields `password` and `date_of_birth`,
   * a line `name=...;password=...;date_of_birth=...` keeps the name and has
   * the other two values replaced by `xxx`.
   */
  lemma TestFieldsRedacted(name: string, password: string, birth: string)
    requires password != [] && birth != []
    requires PlainPair(Pair("name", name), ';') && PlainPair(Pair("password", password), ';')
             && PlainPair(Pair("date_of_birth", birth), ';')
    ensures var fields := ["password", "date_of_birth"];
            FilterDatum(fields, "xxx", Render([Pair("name", name), Pair("password", password), Pair("date_of_birth", birth)], ';'), ';')
            == Render([Pair("name", name), Pair("password", "xxx"), Pair("date_of_birth", "xxx")], ';')
  {
    var alts := ["password", "date_of_birth"];
    var pairs := [Pair("name", name), Pair("password", password), Pair("date_of_birth", birth)];
    TestFieldsPlain();
    TestKeysRedacted(name, password, birth);
    RedactsRenderedPairs(alts, "xxx", pairs, ';');
  }
}
