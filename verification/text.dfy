/** The few .NET string operations the HTTP core relies on, with the
    semantics of the .NET base library: ordinal search, `Split` on one
    separator character, `Trim`, ordinal case-insensitive comparison and
    `string.Format` called without format arguments. */
module Text {
  import opened Wrappers

  /* ---------- searching ---------- */

  /** `String.IndexOf(c, from)`: the first position at or after `from`
      holding `c`, or `|s|` when there is none. */
  function IndexOf(s: string, c: char, from: nat): (r: nat)
    requires from <= |s|
    ensures from <= r <= |s|
    ensures r < |s| ==> s[r] == c
    ensures forall j :: from <= j < r ==> s[j] != c
    decreases |s| - from
  {
    if from == |s| || s[from] == c then from else IndexOf(s, c, from + 1)
  }

  /** `String.LastIndexOf(c)` restricted to [lo, hi): the last position in
      that range holding `c`, or `lo - 1` when there is none. */
  function LastIndexOf(s: string, c: char, lo: nat, hi: nat): (r: int)
    requires lo <= hi <= |s|
    ensures lo - 1 <= r < hi
    ensures r >= lo ==> s[r] == c
    ensures forall j :: r < j < hi && lo <= j ==> s[j] != c
    decreases hi - lo
  {
    if lo == hi then lo - 1
    else if s[hi - 1] == c then hi - 1
    else LastIndexOf(s, c, lo, hi - 1)
  }

  /** `sub` occurs in `s` at position `i`. */
  predicate OccursAt(s: string, i: int, sub: string) {
    0 <= i && i + |sub| <= |s| && s[i..i + |sub|] == sub
  }

  /** `String.Contains(string)`: ordinal substring search. */
  predicate Contains(s: string, sub: string) {
    exists i | 0 <= i <= |s| - |sub| :: OccursAt(s, i, sub)
  }

  /** `String.StartsWith(string, StringComparison.Ordinal)`. */
  predicate StartsWith(s: string, prefix: string) {
    |prefix| <= |s| && s[..|prefix|] == prefix
  }

  /** `String.IsNullOrEmpty`. */
  predicate IsNullOrEmpty(s: Option<string>) {
    s.None? || s.value == ""
  }

  /* ---------- case-insensitive comparison ---------- */

  /** Upper-casing of one character, restricted to the ASCII letters. */
  function Upper(c: char): char {
    if 'a' <= c <= 'z' then (c as int - 32) as char else c
  }

  /** `string.Equals(a, b, StringComparison.OrdinalIgnoreCase)` on ASCII letters. */
  predicate EqualsIgnoreCase(a: string, b: string) {
    |a| == |b| && forall i :: 0 <= i < |a| ==> Upper(a[i]) == Upper(b[i])
  }

  lemma EqualsIgnoreCaseReflexive(a: string)
    ensures EqualsIgnoreCase(a, a)
  {
  }

  /* ---------- Split and Join ---------- */

  /** `String.Split(sep)` without options: every piece, empty ones included, in order. */
  function Split(s: string, sep: char): (pieces: seq<string>)
    ensures |pieces| >= 1
    ensures forall k :: 0 <= k < |pieces| ==> sep !in pieces[k]
    ensures Join(pieces, sep) == s
    decreases |s|
  {
    var k := IndexOf(s, sep, 0);
    if k == |s| then
      assert forall i :: 0 <= i < |s| ==> s[i] != sep;
      [s]
    else
      var rest := Split(s[k + 1..], sep);
      assert s == s[..k] + [sep] + s[k + 1..];
      [s[..k]] + rest
  }

  /** `String.Join(sep, pieces)`: the inverse of `Split`. */
  function Join(pieces: seq<string>, sep: char): (r: string) {
    if pieces == [] then ""
    else if |pieces| == 1 then pieces[0]
    else pieces[0] + [sep] + Join(pieces[1..], sep)
  }

  /** Splitting a joined list of separator-free pieces gives the pieces back. */
  lemma {:induction false} SplitJoin(pieces: seq<string>, sep: char)
    requires |pieces| >= 1
    requires forall k :: 0 <= k < |pieces| ==> sep !in pieces[k]
    ensures Split(Join(pieces, sep), sep) == pieces
  {
    var s := Join(pieces, sep);
    var k := IndexOf(s, sep, 0);
    if |pieces| == 1 {
      assert s == pieces[0];
    } else {
      var rest := Join(pieces[1..], sep);
      assert s == pieces[0] + [sep] + rest;
      var n := |pieces[0]|;
      assert sep !in pieces[0];
      assert s[n] == sep;
      assert k == n;
      assert s[..k] == pieces[0];
      assert s[k + 1..] == rest;
      assert Split(s, sep) == [pieces[0]] + Split(rest, sep);
      SplitJoin(pieces[1..], sep);
      assert pieces == [pieces[0]] + pieces[1..];
    }
  }

  /** The `StringSplitOptions.RemoveEmptyEntries` filter: drops the pieces equal to "". */
  function RemoveEmpty(pieces: seq<string>): (r: seq<string>)
    ensures |r| <= |pieces|
    ensures forall k :: 0 <= k < |r| ==> r[k] != "" && r[k] in pieces
    ensures forall p :: p in pieces && p != "" ==> p in r
    ensures multiset(r) == multiset(pieces)["" := 0]
  {
    if pieces == [] then []
    else
      assert pieces == [pieces[0]] + pieces[1..];
      if pieces[0] == "" then RemoveEmpty(pieces[1..])
      else [pieces[0]] + RemoveEmpty(pieces[1..])
  }

  /** The filter works piece by piece, so it keeps the order of the pieces:
      filtering a concatenation concatenates the filtered parts. */
  lemma {:induction false} RemoveEmptyAppend(a: seq<string>, b: seq<string>)
    ensures RemoveEmpty(a + b) == RemoveEmpty(a) + RemoveEmpty(b)
  {
    if a == [] {
      assert a + b == b;
    } else {
      assert (a + b)[0] == a[0] && (a + b)[1..] == a[1..] + b;
      RemoveEmptyAppend(a[1..], b);
      if a[0] != "" {
        ConcatAssociative([a[0]], RemoveEmpty(a[1..]), RemoveEmpty(b));
      }
    }
  }

  lemma ConcatAssociative(p: seq<string>, q: seq<string>, r: seq<string>)
    ensures p + (q + r) == (p + q) + r
  {
  }

  /* ---------- Trim ---------- */

  /** `char.IsWhiteSpace`: the Unicode space, line and paragraph separators,
      U+0009 to U+000D and U+0085. */
  predicate IsWhiteSpace(c: char) {
    c == ' ' || ('\t' <= c <= '\r') || c == '\U{85}' || c == '\U{A0}' || c == '\U{1680}'
    || ('\U{2000}' <= c <= '\U{200A}') || c == '\U{2028}' || c == '\U{2029}'
    || c == '\U{202F}' || c == '\U{205F}' || c == '\U{3000}'
  }

  /** The first position at or after `from` that does not hold white space, or `|s|`. */
  function TextStart(s: string, from: nat): (r: nat)
    requires from <= |s|
    ensures from <= r <= |s|
    ensures r < |s| ==> !IsWhiteSpace(s[r])
    ensures forall k :: from <= k < r ==> IsWhiteSpace(s[k])
    decreases |s| - from
  {
    if from == |s| || !IsWhiteSpace(s[from]) then from else TextStart(s, from + 1)
  }

  /** One past the last position in [lo, hi) that does not hold white space, or `lo`. */
  function TextEnd(s: string, lo: nat, hi: nat): (r: nat)
    requires lo <= hi <= |s|
    ensures lo <= r <= hi
    ensures r > lo ==> !IsWhiteSpace(s[r - 1])
    ensures forall k :: r <= k < hi ==> IsWhiteSpace(s[k])
    decreases hi - lo
  {
    if lo == hi || !IsWhiteSpace(s[hi - 1]) then hi else TextEnd(s, lo, hi - 1)
  }

  /** `String.Trim()`: white space removed at both ends, the middle untouched. */
  function Trim(s: string): (r: string)
    ensures Contains(s, r)
    ensures r != "" ==> !IsWhiteSpace(r[0]) && !IsWhiteSpace(r[|r| - 1])
    ensures (forall k :: 0 <= k < |s| ==> IsWhiteSpace(s[k])) <==> r == ""
    ensures exists a, b ::
      && 0 <= a <= b <= |s| && r == s[a..b]
      && (forall k :: 0 <= k < a ==> IsWhiteSpace(s[k]))
      && (forall k :: b <= k < |s| ==> IsWhiteSpace(s[k]))
  {
    var a := TextStart(s, 0);
    var b := TextEnd(s, a, |s|);
    assert OccursAt(s, a, s[a..b]);
    assert a < |s| ==> a < b;
    s[a..b]
  }

  /** `Select(x => x.Trim())`: every piece trimmed, order kept. */
  function TrimAll(pieces: seq<string>): (r: seq<string>)
    ensures |r| == |pieces|
    ensures forall k :: 0 <= k < |r| ==> r[k] == Trim(pieces[k])
  {
    if pieces == [] then [] else [Trim(pieces[0])] + TrimAll(pieces[1..])
  }

  /* ---------- string.Format without arguments ---------- */

  /** `string.Format(provider, format)` with an empty argument list: `{{` and
      `}}` become single braces, any other brace raises FormatException (a
      well-formed item such as `{0}` refers to an argument that does not
      exist). `None` stands for the exception. */
  function FormatNoArgs(format: string): (r: Option<string>)
    ensures r.Some? ==> |r.value| <= |format|
    decreases |format|
  {
    if format == "" then Some("")
    else if format[0] == '{' || format[0] == '}' then
      if |format| >= 2 && format[1] == format[0] then
        match FormatNoArgs(format[2..])
        case None => None
        case Some(rest) => Some([format[0]] + rest)
      else None
    else
      match FormatNoArgs(format[1..])
      case None => None
      case Some(rest) => Some([format[0]] + rest)
  }

  /** Doubles every brace: the text `FormatNoArgs` turns back into `s`. */
  function EscapeBraces(s: string): (r: string)
    ensures |r| >= |s|
  {
    if s == "" then ""
    else if s[0] == '{' || s[0] == '}' then [s[0], s[0]] + EscapeBraces(s[1..])
    else [s[0]] + EscapeBraces(s[1..])
  }

  /** A text without braces comes out of the formatter unchanged. */
  lemma {:induction false} FormatVerbatim(s: string)
    requires '{' !in s && '}' !in s
    ensures FormatNoArgs(s) == Some(s)
  {
    if s != "" {
      assert s[0] in s;
      assert forall c :: c in s[1..] ==> c in s;
      FormatVerbatim(s[1..]);
      assert s == [s[0]] + s[1..];
    }
  }

  /** The formatter undoes `EscapeBraces`: every string is some format's output. */
  lemma {:induction false} FormatEscapeRoundTrip(s: string)
    ensures FormatNoArgs(EscapeBraces(s)) == Some(s)
  {
    if s != "" {
      FormatEscapeRoundTrip(s[1..]);
      var e := EscapeBraces(s);
      if s[0] == '{' || s[0] == '}' {
        assert e[2..] == EscapeBraces(s[1..]);
      } else {
        assert e[1..] == EscapeBraces(s[1..]);
      }
      assert s == [s[0]] + s[1..];
    }
  }

  /** The formatter only ever unescapes: a format that succeeds is the
      escaped form of its output. */
  lemma {:induction false} FormatOnlyUnescapes(format: string)
    requires FormatNoArgs(format).Some?
    ensures format == EscapeBraces(FormatNoArgs(format).value)
  {
    if format != "" {
      var out := FormatNoArgs(format).value;
      if format[0] == '{' || format[0] == '}' {
        FormatOnlyUnescapes(format[2..]);
        assert out[1..] == FormatNoArgs(format[2..]).value;
        assert format == [format[0], format[0]] + format[2..];
      } else {
        FormatOnlyUnescapes(format[1..]);
        assert out[1..] == FormatNoArgs(format[1..]).value;
        assert format == [format[0]] + format[1..];
      }
    }
  }

  /** The formats that give `s` are exactly one: its escaped form. */
  lemma FormatIffEscaped(format: string, s: string)
    ensures FormatNoArgs(format) == Some(s) <==> format == EscapeBraces(s)
  {
    if FormatNoArgs(format) == Some(s) {
      FormatOnlyUnescapes(format);
    }
    if format == EscapeBraces(s) {
      FormatEscapeRoundTrip(s);
    }
  }

  /** Escaping keeps the length exactly when there is no brace to double. */
  lemma {:induction false} EscapeKeepsLengthIffBraceFree(s: string)
    ensures |EscapeBraces(s)| == |s| <==> '{' !in s && '}' !in s
  {
    if s != "" {
      EscapeKeepsLengthIffBraceFree(s[1..]);
      assert s == [s[0]] + s[1..];
      assert forall c :: c in s <==> c == s[0] || c in s[1..];
    }
  }

  /** The formatter returns its input unchanged exactly when it holds no brace. */
  lemma FormatVerbatimIffBraceFree(s: string)
    ensures FormatNoArgs(s) == Some(s) <==> '{' !in s && '}' !in s
  {
    if FormatNoArgs(s) == Some(s) {
      FormatOnlyUnescapes(s);
      EscapeKeepsLengthIffBraceFree(s);
    }
    if '{' !in s && '}' !in s {
      FormatVerbatim(s);
    }
  }

  /** A single unescaped brace anywhere makes the formatter fail. */
  lemma {:induction false} FormatRejectsLoneBrace(prefix: string, suffix: string, brace: char)
    requires '{' !in prefix && '}' !in prefix
    requires brace == '{' || brace == '}'
    requires suffix == "" || suffix[0] != brace
    ensures FormatNoArgs(prefix + [brace] + suffix) == None
  {
    if prefix == "" {
      assert (prefix + [brace] + suffix)[0] == brace;
      if |prefix + [brace] + suffix| >= 2 {
        assert (prefix + [brace] + suffix)[1] == suffix[0];
      }
    } else {
      assert prefix[0] in prefix;
      assert forall c :: c in prefix[1..] ==> c in prefix;
      FormatRejectsLoneBrace(prefix[1..], suffix, brace);
      assert (prefix + [brace] + suffix)[1..] == prefix[1..] + [brace] + suffix;
    }
  }
}
