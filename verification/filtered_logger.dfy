/**
  Redaction of personally identifiable fields in rendered log lines.

  `RedactField` models one call `re.sub(pattern, replacement, message)` whose
  pattern is `<field>=.+?<separator>` and whose replacement is
  `<field>=<redaction><separator>`, for a field name and a separator that
  contain no regular-expression metacharacters. The pattern is tried at each
  position from left to right; where it matches, the shortest match is
  replaced and scanning resumes after it, otherwise one character is copied.
 */
module FilteredLogger {
  import opened Wrappers

  /** The default sensitive field names. */
  const PII_FIELDS: seq<string> := ["name", "email", "phone", "ssn", "password"]

  /**
    `k` ends a value matched by `.+?` and followed by `sep` in `v`: the value
    `v[..k]` is non-empty, holds no newline, and `sep` comes right after it.
   */
  predicate IsValueEnd(v: string, sep: string, k: nat) {
    1 <= k <= |v| && '\n' !in v[..k] && sep <= v[k..]
  }

  /** `k` is the end the lazy quantifier `.+?` settles on: the first value end. */
  predicate IsShortestValueEnd(v: string, sep: string, k: nat) {
    IsValueEnd(v, sep, k) && forall m :: 1 <= m < k ==> !IsValueEnd(v, sep, m)
  }

  /** Searches value ends from `k` upwards, given that `v[..k-1]` holds no newline. */
  function ShortestValueFrom(v: string, sep: string, k: nat): (r: Option<nat>)
    requires 1 <= k <= |v| + 1
    requires '\n' !in v[..k - 1]
    ensures r.Some? ==> k <= r.value && IsValueEnd(v, sep, r.value)
    ensures r.Some? ==> forall m :: k <= m < r.value ==> !IsValueEnd(v, sep, m)
    ensures r.None? ==> forall m :: k <= m ==> !IsValueEnd(v, sep, m)
    decreases |v| + 1 - k
  {
    if k > |v| then None
    else if v[k - 1] == '\n' then
      assert forall m :: k <= m <= |v| ==> v[k - 1] == v[..m][k - 1];
      None
    else if sep <= v[k..] then
      Some(k)
    else
      assert v[..k] == v[..k - 1] + [v[k - 1]];
      ShortestValueFrom(v, sep, k + 1)
  }

  /** The value `.+?<sep>` matches at the start of `v`, as its length. */
  function ShortestValue(v: string, sep: string): (r: Option<nat>)
    ensures r.Some? ==> IsShortestValueEnd(v, sep, r.value)
    ensures r.None? <==> forall m :: !IsValueEnd(v, sep, m)
  {
    ShortestValueFrom(v, sep, 1)
  }

  /** `s[..n]` matches `<field>=.+?<sep>`, with any non-empty newline-free value. */
  predicate IsMatchEnd(field: string, sep: string, s: string, n: nat) {
    field + "=" <= s && |field| + 1 + |sep| <= n <= |s| && IsValueEnd(s[|field| + 1..], sep, n - (|field| + 1 + |sep|))
  }

  /** The lazy quantifier settles on one end only. */
  lemma ShortestValueIsUnique(v: string, sep: string, k: nat)
    requires IsShortestValueEnd(v, sep, k)
    ensures ShortestValue(v, sep) == Some(k)
  {
    assert ShortestValue(v, sep).Some?;
  }

  /**
    Length of the match of `<field>=.+?<sep>` anchored at the start of `s`, if
    the pattern matches there.
   */
  function MatchLength(field: string, sep: string, s: string): (r: Option<nat>)
    ensures r.Some? ==> |field| + 2 + |sep| <= r.value <= |s|
  {
    var key := field + "=";
    if !(key <= s) then None
    else match ShortestValue(s[|key|..], sep)
      case None => None
      case Some(k) => Some(|key| + k + |sep|)
  }

  /** A match of the anchored pattern starts with `<field>=` and ends at the shortest value end. */
  lemma MatchLengthShortest(field: string, sep: string, s: string)
    requires MatchLength(field, sep, s).Some?
    ensures field + "=" <= s
    ensures IsShortestValueEnd(s[|field| + 1..], sep, MatchLength(field, sep, s).value - |field| - 1 - |sep|)
  {
  }

  /** The anchored pattern fails exactly when no match end exists. */
  lemma MatchLengthNoneExactly(field: string, sep: string, s: string)
    ensures MatchLength(field, sep, s).None? <==> forall n :: !IsMatchEnd(field, sep, s, n)
  {
    var r := MatchLength(field, sep, s);
    if r.Some? {
      MatchLengthShortest(field, sep, s);
      assert IsMatchEnd(field, sep, s, r.value);
    }
  }

  /** No match of the pattern starts at any position of `s` before `n`. */
  predicate NoMatchBefore(field: string, sep: string, s: string, n: nat)
    requires n <= |s|
  {
    forall i :: 0 <= i < n ==> MatchLength(field, sep, s[i..]).None?
  }

  /** One `re.sub` pass for one field: every match is replaced by `<field>=<redaction><sep>`. */
  function RedactField(field: string, redaction: string, sep: string, s: string): string
    decreases |s|
  {
    if |s| == 0 then []
    else match MatchLength(field, sep, s)
      case Some(n) => field + "=" + redaction + sep + RedactField(field, redaction, sep, s[n..])
      case None => [s[0]] + RedactField(field, redaction, sep, s[1..])
  }

  /** Where the pattern does not match, the pass copies one character and goes on. */
  lemma CopiesFirstCharacter(field: string, redaction: string, sep: string, s: string)
    requires |s| > 0 && MatchLength(field, sep, s).None?
    ensures RedactField(field, redaction, sep, s) == [s[0]] + RedactField(field, redaction, sep, s[1..])
  {
  }

  /** Dropping the first character keeps the remaining match-free positions. */
  lemma NoMatchBeforeShift(field: string, sep: string, s: string, n: nat)
    requires 0 < n <= |s|
    requires NoMatchBefore(field, sep, s, n)
    ensures NoMatchBefore(field, sep, s[1..], n - 1)
  {
    forall i | 0 <= i < n - 1
      ensures MatchLength(field, sep, s[1..][i..]).None?
    {
      assert s[1..][i..] == s[i + 1..];
    }
  }

  /** Text before the first match is copied unchanged. */
  lemma {:induction false} CopiesUnmatchedPrefix(field: string, redaction: string, sep: string, s: string, n: nat)
    requires n <= |s|
    requires NoMatchBefore(field, sep, s, n)
    ensures RedactField(field, redaction, sep, s) == s[..n] + RedactField(field, redaction, sep, s[n..])
    decreases n
  {
    if n > 0 {
      var t := s[1..];
      assert s[0..] == s;
      CopiesFirstCharacter(field, redaction, sep, s);
      NoMatchBeforeShift(field, sep, s, n);
      CopiesUnmatchedPrefix(field, redaction, sep, t, n - 1);
      assert t[n - 1..] == s[n..];
      assert s[..n] == [s[0]] + t[..n - 1];
    }
  }

  /** A message in which the pattern matches nowhere comes back identical. */
  lemma NoMatchUnchanged(field: string, redaction: string, sep: string, s: string)
    requires NoMatchBefore(field, sep, s, |s|)
    ensures RedactField(field, redaction, sep, s) == s
  {
    CopiesUnmatchedPrefix(field, redaction, sep, s, |s|);
    assert s[..|s|] == s;
  }

  /** Without any `<field>=` in the message, the pass changes nothing. */
  lemma NoKeyUnchanged(field: string, redaction: string, sep: string, s: string)
    requires forall i :: 0 <= i <= |s| ==> !(field + "=" <= s[i..])
    ensures RedactField(field, redaction, sep, s) == s
  {
    NoMatchUnchanged(field, redaction, sep, s);
  }

  /** Without any separator in the message, the pass changes nothing: this is not an error. */
  lemma NoSeparatorUnchanged(field: string, redaction: string, sep: string, s: string)
    requires |sep| > 0
    requires forall i :: 0 <= i <= |s| ==> !(sep <= s[i..])
    ensures RedactField(field, redaction, sep, s) == s
  {
    forall i | 0 <= i < |s|
      ensures MatchLength(field, sep, s[i..]).None?
    {
      var t := s[i..];
      MatchLengthNoneExactly(field, sep, t);
      if field + "=" <= t {
        var w := t[|field| + 1..];
        forall k: nat | IsValueEnd(w, sep, k)
          ensures false
        {
        }
      }
    }
    NoMatchUnchanged(field, redaction, sep, s);
  }

  /**
    At the start of `<field>=<v><sep><b>` the pattern matches exactly up to the
    separator after `v` when `v` is non-empty, holds no newline and no
    separator starts inside it.
   */
  lemma MatchesSegment(field: string, sep: string, v: string, b: string)
    requires |v| > 0 && '\n' !in v
    requires forall m :: 1 <= m < |v| ==> !(sep <= v[m..] + sep + b)
    ensures MatchLength(field, sep, field + "=" + v + sep + b) == Some(|field| + 1 + |v| + |sep|)
  {
    var t := field + "=" + v + sep + b;
    var w := v + sep + b;
    assert field + "=" <= t;
    assert t[|field| + 1..] == w;
    assert w[..|v|] == v;
    assert w[|v|..] == sep + b;
    forall m | 1 <= m < |v|
      ensures !IsValueEnd(w, sep, m)
    {
      assert w[m..] == v[m..] + sep + b;
    }
    ShortestValueIsUnique(w, sep, |v|);
  }

  /**
    A segment `<field>=<v><sep>` whose value `v` is non-empty, holds no newline
    and is not cut short by an earlier separator, and before which nothing
    matches, is rewritten to `<field>=<redaction><sep>`; the text before it is
    kept and scanning resumes right after it.
   */
  lemma RedactsSegment(field: string, redaction: string, sep: string, a: string, v: string, b: string)
    requires |v| > 0 && '\n' !in v
    requires forall m :: 1 <= m < |v| ==> !(sep <= v[m..] + sep + b)
    requires NoMatchBefore(field, sep, a + (field + "=" + v + sep + b), |a|)
    ensures RedactField(field, redaction, sep, a + (field + "=" + v + sep + b))
         == a + (field + "=" + redaction + sep + RedactField(field, redaction, sep, b))
  {
    var t := field + "=" + v + sep + b;
    var s := a + t;
    CopiesUnmatchedPrefix(field, redaction, sep, s, |a|);
    assert s[..|a|] == a && s[|a|..] == t;
    MatchesSegment(field, sep, v, b);
    assert t[|field| + 1 + |v| + |sep|..] == b;
  }

  /** With the stock marker and separator, an already-redacted segment is rewritten to itself. */
  lemma RedactedSegmentKept(field: string, rest: string)
    ensures RedactField(field, "***", ";", field + "=***;" + rest)
         == field + "=***;" + RedactField(field, "***", ";", rest)
  {
    var marked := field + "=***;";
    assert marked == field + "=" + "***" + ";";
    forall m | 1 <= m < 3
      ensures !(";" <= "***"[m..] + ";" + rest)
    {
      assert ("***"[m..] + ";" + rest)[0] == '*';
    }
    RedactsSegment(field, "***", ";", [], "***", rest);
    assert [] + (field + "=" + "***" + ";" + rest) == marked + rest;
    var out := RedactField(field, "***", ";", rest);
    assert [] + (field + "=" + "***" + ";" + out) == marked + out;
  }

  /**
    An empty value cannot match by itself, since `.+?` needs one character:
    `<field>=<sep>` followed by text in which no separator starts after the
    first one is left untouched.
   */
  lemma EmptyValueUntouched(field: string, redaction: string, sep: string, rest: string)
    requires forall j :: 0 < j <= |sep + rest| ==> !(sep <= (sep + rest)[j..])
    ensures RedactField(field, redaction, sep, field + "=" + sep + rest) == field + "=" + sep + rest
  {
    var u := sep + rest;
    var s := field + "=" + u;
    assert s == field + "=" + sep + rest;
    assert NoMatchBefore(field, sep, s, |s|) by {
      forall i | 0 <= i < |s|
        ensures MatchLength(field, sep, s[i..]).None?
      {
        MatchLengthNoneExactly(field, sep, s[i..]);
        forall n: nat
          ensures !IsMatchEnd(field, sep, s[i..], n)
        {
          var t := s[i..];
          if field + "=" <= t && |field| + 1 + |sep| <= n <= |t| {
            var k := n - (|field| + 1 + |sep|);
            assert t[|field| + 1..][k..] == u[i + k..];
          }
        }
      }
    }
    NoMatchUnchanged(field, redaction, sep, s);
  }

  /** The separator itself can be the value's first character: `password=;x;` becomes `password=***;`. */
  lemma SeparatorAsValueCharacter()
    ensures RedactField("password", "***", ";", "password=;x;") == "password=***;"
  {
    var field, v, rest := "password", ";x", "";
    assert "password=;x;" == [] + (field + "=" + v + ";" + rest);
    assert [] + (field + "=" + "***" + ";" + rest) == "password=***;";
    forall m | 1 <= m < |v|
      ensures !(";" <= v[m..] + ";" + rest)
    {
      assert v[m..] + ";" + rest == "x;" && "x;"[0] == 'x';
    }
    RedactsSegment(field, "***", ";", [], v, rest);
  }

  /** No match starts inside a prefix `a` that lacks the field's first character. */
  lemma NoMatchInPrefix(field: string, sep: string, a: string, tail: string)
    requires |field| > 0 && field[0] !in a
    ensures NoMatchBefore(field, sep, a + tail, |a|)
  {
    forall i | 0 <= i < |a|
      ensures !(field + "=" <= (a + tail)[i..])
    {
      assert (a + tail)[i..][0] == a[i] && a[i] in a;
    }
  }

  /** A field with a character that `s` lacks has no key `<field>=` in `s`. */
  lemma NoKeyWithoutCharacter(field: string, s: string, j: nat)
    requires j < |field| && field[j] !in s
    ensures forall i :: 0 <= i <= |s| ==> !(field + "=" <= s[i..])
  {
    forall i | 0 <= i <= |s|
      ensures !(field + "=" <= s[i..])
    {
      if i + j < |s| {
        assert s[i..][j] == s[i + j] && s[i + j] in s;
      }
    }
  }

  /** A value without `;` is not cut short by an earlier separator. */
  lemma NoSeparatorInsideValue(v: string, rest: string)
    requires ';' !in v
    ensures forall m :: 1 <= m < |v| ==> !(";" <= v[m..] + ";" + rest)
  {
    forall m | 1 <= m < |v|
      ensures !(";" <= v[m..] + ";" + rest)
    {
      assert (v[m..] + ";" + rest)[0] == v[m] && v[m] in v;
    }
  }

  /**
    A segment `<field>=<v>;` whose value holds neither a newline nor `;`, after
    text that does not contain the field's first character, is redacted with
    the stock marker and separator.
   */
  lemma RedactsLiteralSegment(field: string, a: string, v: string, rest: string)
    requires |field| > 0 && field[0] !in a
    requires |v| > 0 && '\n' !in v && ';' !in v
    ensures RedactField(field, "***", ";", a + (field + "=" + v + ";" + rest))
         == a + (field + "=" + "***" + ";" + RedactField(field, "***", ";", rest))
  {
    NoSeparatorInsideValue(v, rest);
    NoMatchInPrefix(field, ";", a, field + "=" + v + ";" + rest);
    RedactsSegment(field, "***", ";", a, v, rest);
  }

  /** Matching is not word-bounded: field `name` also redacts `xname=...;`. */
  lemma NotWordBounded()
    ensures RedactField("name", "***", ";", "xname=a;") == "xname=***;"
  {
    assert "xname=a;" == "x" + ("name" + "=" + "a" + ";" + "");
    assert "x" + ("name" + "=" + "***" + ";" + "") == "xname=***;";
    assert 'n' !in "x";
    RedactsLiteralSegment("name", "x", "a", "");
  }

  /** `filter_datum`'s result: each field's pass runs on the output of the previous one, in list order. */
  function FilterAll(fields: seq<string>, redaction: string, message: string, sep: string): string
    decreases |fields|
  {
    if |fields| == 0 then message
    else FilterAll(fields[1..], redaction, RedactField(fields[0], redaction, sep, message), sep)
  }

  /** `filter_datum`: rewrites the message once per field, in list order. */
  method FilterDatum(fields: seq<string>, redaction: string, message: string, separator: string)
    returns (result: string)
    ensures result == FilterAll(fields, redaction, message, separator)
    ensures |fields| == 0 ==> result == message
  {
    result := message;
    for i := 0 to |fields|
      invariant FilterAll(fields[i..], redaction, result, separator)
             == FilterAll(fields, redaction, message, separator)
    {
      assert fields[i..][1..] == fields[i + 1..];
      result := RedactField(fields[i], redaction, separator, result);
    }
  }

  /** Splitting the field list splits the work: the second part runs on the first part's output. */
  lemma {:induction false} FilterAllAppend(fs: seq<string>, gs: seq<string>, redaction: string, message: string, sep: string)
    ensures FilterAll(fs + gs, redaction, message, sep)
         == FilterAll(gs, redaction, FilterAll(fs, redaction, message, sep), sep)
    decreases |fs|
  {
    if |fs| == 0 {
      assert fs + gs == gs;
    } else {
      assert (fs + gs)[1..] == fs[1..] + gs;
      FilterAllAppend(fs[1..], gs, redaction, RedactField(fs[0], redaction, sep, message), sep);
    }
  }

  /** A message in which no field's pattern matches anywhere comes back identical. */
  lemma {:induction false} FilterAllNoMatch(fields: seq<string>, redaction: string, message: string, sep: string)
    requires forall f :: f in fields ==> NoMatchBefore(f, sep, message, |message|)
    ensures FilterAll(fields, redaction, message, sep) == message
    decreases |fields|
  {
    if |fields| > 0 {
      NoMatchUnchanged(fields[0], redaction, sep, message);
      FilterAllNoMatch(fields[1..], redaction, message, sep);
    }
  }

  /** A redactor whose field names are fixed at construction, with marker `***` and separator `;`. */
  class RedactingFormatter {
    static const REDACTION: string := "***"
    static const SEPARATOR: string := ";"
    const fields: seq<string>

    constructor (fields: seq<string>)
      ensures this.fields == fields
    {
      this.fields := fields;
    }

    /** Redacts an already-rendered log line with the constructor's fields. */
    method Format(rendered: string) returns (line: string)
      ensures line == FilterAll(fields, REDACTION, rendered, SEPARATOR)
    {
      line := FilterDatum(fields, REDACTION, rendered, SEPARATOR);
    }
  }

  /** The one-field example message and its expected output, cut at the `password` segment. */
  lemma PasswordExampleParts()
    ensures "name=John;password=hunter2;" == "name=John;" + ("password" + "=" + "hunter2" + ";" + "")
    ensures "name=John;" + ("password" + "=" + "***" + ";" + "") == "name=John;password=***;"
  {
  }

  /** With fields `["password"]`, `name=John;password=hunter2;` becomes `name=John;password=***;`. */
  lemma RedactsPasswordExample()
    ensures FilterAll(["password"], "***", "name=John;password=hunter2;", ";") == "name=John;password=***;"
  {
    PasswordExampleParts();
    assert 'p' !in "name=John;" && ';' !in "hunter2";
    RedactsLiteralSegment("password", "name=John;", "hunter2", "");
    assert ["password"][1..] == [];
  }

  /** The `ssn` pass leaves the text after the `ssn` segment alone: it holds no `ssn=`. */
  lemma SsnPassKeepsRest()
    ensures RedactField("ssn", "***", ";", "password=abc;") == "password=abc;"
  {
    var rest := "password=abc;";
    assert 'n' !in rest;
    NoKeyWithoutCharacter("ssn", rest, 2);
    NoKeyUnchanged("ssn", "***", ";", rest);
  }

  /** The two-field example message and the `ssn` pass's output, cut at the `ssn` segment. */
  lemma SsnPassParts()
    ensures "ssn=123-45-6789;password=abc;" == [] + ("ssn" + "=" + "123-45-6789" + ";" + "password=abc;")
    ensures [] + ("ssn" + "=" + "***" + ";" + "password=abc;") == "ssn=***;password=abc;"
  {
  }

  /** The `ssn` pass of the two-field example: only the `ssn` value is redacted. */
  lemma RedactsSsnPass()
    ensures RedactField("ssn", "***", ";", "ssn=123-45-6789;password=abc;") == "ssn=***;password=abc;"
  {
    SsnPassParts();
    assert ';' !in "123-45-6789" && '\n' !in "123-45-6789";
    RedactsLiteralSegment("ssn", [], "123-45-6789", "password=abc;");
    SsnPassKeepsRest();
  }

  /** The `ssn` pass's output and the `password` pass's output, cut at the `password` segment. */
  lemma PasswordPassParts()
    ensures "ssn=***;password=abc;" == "ssn=***;" + ("password" + "=" + "abc" + ";" + "")
    ensures "ssn=***;" + ("password" + "=" + "***" + ";" + "") == "ssn=***;password=***;"
  {
  }

  /** The `password` pass of the two-field example runs on the `ssn` pass's output. */
  lemma RedactsPasswordPass()
    ensures RedactField("password", "***", ";", "ssn=***;password=abc;") == "ssn=***;password=***;"
  {
    PasswordPassParts();
    assert 'p' !in "ssn=***;" && ';' !in "abc";
    RedactsLiteralSegment("password", "ssn=***;", "abc", "");
  }

  /**
    Fields apply in list order, each on the previous pass's output: with
    `["ssn", "password"]`, `ssn=123-45-6789;password=abc;` becomes
    `ssn=***;password=***;`.
   */
  lemma RedactsTwoFieldsInOrder()
    ensures FilterAll(["ssn", "password"], "***", "ssn=123-45-6789;password=abc;", ";") == "ssn=***;password=***;"
  {
    var fields := ["ssn", "password"];
    assert fields[1..] == ["password"] && fields[1..][1..] == [];
    RedactsSsnPass();
    RedactsPasswordPass();
  }
}
