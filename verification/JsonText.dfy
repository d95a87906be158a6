/** JSON text as the reporter lays it out, and what a substring search for a quoted key finds in it. */
module JsonText {
  import opened Options

  const QUOTE: char := '"'

  ghost predicate HitAt(text: string, pattern: string, p: nat) {
    p + |pattern| <= |text| && text[p..p + |pattern|] == pattern
  }

  ghost predicate IsFirstHit(text: string, pattern: string, p: nat) {
    && HitAt(text, pattern, p)
    && forall q: nat :: q < p ==> !HitAt(text, pattern, q)
  }

  /** The C library's strstr, scanning from `from` on. */
  function FindFrom(text: string, pattern: string, from: nat): (r: Option<nat>)
    requires from <= |text|
    ensures r.Some? ==> from <= r.value && HitAt(text, pattern, r.value)
    ensures r.Some? ==> forall q: nat :: from <= q < r.value ==> !HitAt(text, pattern, q)
    ensures r.None? ==> forall q: nat :: from <= q ==> !HitAt(text, pattern, q)
    decreases |text| - from
  {
    if |text| - from < |pattern| then None
    else if text[from..from + |pattern|] == pattern then Some(from)
    else if from == |text| then None
    else FindFrom(text, pattern, from + 1)
  }

  function StrStr(text: string, pattern: string): (r: Option<nat>)
    ensures r.Some? ==> IsFirstHit(text, pattern, r.value)
    ensures r.None? ==> forall q: nat :: !HitAt(text, pattern, q)
  {
    FindFrom(text, pattern, 0)
  }

  lemma {:induction false} FirstHitIsFound(text: string, pattern: string, p: nat)
    requires IsFirstHit(text, pattern, p)
    ensures StrStr(text, pattern) == Some(p)
  {
    hide HitAt;
    if StrStr(text, pattern).Some? {
      var q := StrStr(text, pattern).value;
      assert !(q < p) && !(p < q);
    }
  }

  predicate Unquoted(s: string) {
    QUOTE !in s
  }

  type Plain = s: string | Unquoted(s)

  /** The search key the parser builds for a field name. */
  function KeyPattern(key: string): string {
    "\"" + key + "\":"
  }

  /** Names that no punctuation of the layout can be mistaken for. */
  predicate IsName(key: string) {
    && Unquoted(key)
    && key != ""
    && key[0] != ':' && key[0] != ',' && key[0] != '}'
  }

  datatype Value = Bare(text: string) | Quoted(text: string)

  function ValueText(v: Value): string {
    match v
    case Bare(text) => text
    case Quoted(text) => "\"" + text + "\""
  }

  /** What follows a value: nothing after a brace that opens a section, else a comma, or braces that
      close the section, or the section and the report. */
  datatype Punctuation = Opening | Comma | Closing | Last

  function PunctuationText(p: Punctuation): (s: string)
    ensures Unquoted(s)
    ensures !p.Opening? ==> s != "" && (s[0] == ',' || s[0] == '}')
  {
    match p
    case Opening => ""
    case Comma => ","
    case Closing => "},"
    case Last => "}}"
  }

  /** One `"name":value` of the layout with the punctuation after it. A section header is a line
      whose bare value is an opening brace. */
  datatype Line = Line(name: Plain, value: Value, punctuation: Punctuation) {
    function Ending(): string {
      PunctuationText(punctuation)
    }
  }

  function LineText(l: Line): string {
    "\"" + l.name + "\":" + ValueText(l.value) + l.Ending()
  }

  function LinesText(lines: seq<Line>): string {
    if lines == [] then "" else LineText(lines[0]) + LinesText(lines[1..])
  }

  predicate LineOk(l: Line) {
    && Unquoted(l.value.text)
    && (l.value.Quoted? ==> !l.punctuation.Opening?)
  }

  ghost predicate LinesOk(lines: seq<Line>) {
    forall i :: 0 <= i < |lines| ==> LineOk(lines[i])
  }

  ghost predicate Lacks(lines: seq<Line>, key: string) {
    forall i :: 0 <= i < |lines| ==> lines[i].name != key
  }

  lemma {:induction false} LinesTextAppend(a: seq<Line>, b: seq<Line>)
    ensures LinesText(a + b) == LinesText(a) + LinesText(b)
    decreases |a|
  {
    hide LineText;
    if a == [] {
      assert a + b == b;
    } else {
      LinesTextAppend(a[1..], b);
      assert (a + b)[1..] == a[1..] + b;
      Concat3(LineText(a[0]), LinesText(a[1..]), LinesText(b));
    }
  }

  lemma Concat3(a: string, b: string, c: string)
    ensures (a + b) + c == a + (b + c)
  {
  }

  lemma LinesTextOne(l: Line)
    ensures LinesText([l]) == LineText(l)
  {
    assert LinesText([l][1..]) == "";
  }

  // --- Where a key can be found -------------------------------------------------

  /** A quoted key found right after a quote is exactly the text up to the next quote. */
  lemma {:induction false} QuotedMatch(s: string, rest: string, key: string)
    requires Unquoted(s) && Unquoted(key)
    requires |key| < |s + [QUOTE] + rest|
    requires (s + [QUOTE] + rest)[..|key| + 1] == key + [QUOTE]
    ensures s == key
  {
    var t := s + [QUOTE] + rest;
    PrefixAt(t, key + [QUOTE]);
    ConcatAt(s, [QUOTE] + rest);
    assert t == s + ([QUOTE] + rest);
    assert |s| == |key| by {
      assert t[|s|] == QUOTE && t[|key|] == QUOTE;
    }
    assert s == t[..|s|];
    assert key == t[..|key|];
  }

  lemma PrefixAt(t: string, p: string)
    requires |p| <= |t| && t[..|p|] == p
    ensures forall i :: 0 <= i < |p| ==> t[i] == p[i]
  {
    forall i | 0 <= i < |p| ensures t[i] == p[i] {
      assert t[..|p|][i] == t[i];
    }
  }

  lemma ConcatAt(a: string, b: string)
    ensures forall i :: 0 <= i < |a| ==> (a + b)[i] == a[i]
    ensures forall i :: 0 <= i < |b| ==> (a + b)[|a| + i] == b[i]
  {
  }

  /** What a hit says about the text from its opening quote on. */
  lemma {:induction false} HitReads(text: string, key: string, q: nat)
    requires HitAt(text, KeyPattern(key), q)
    ensures q + |key| + 3 <= |text|
    ensures text[q] == QUOTE
    ensures text[q + 1..][..|key| + 1] == key + [QUOTE]
    ensures key != "" ==> text[q + 1] == key[0]
    ensures text[q + |key| + 2] == ':'
  {
    var k := KeyPattern(key);
    PrefixAt(text[q..], k) by {
      assert text[q..][..|k|] == text[q..q + |k|];
    }
    forall i | 0 <= i < |k| ensures text[q + i] == k[i] {
      assert text[q..][i] == text[q + i];
    }
    var u := text[q + 1..][..|key| + 1];
    forall i | 0 <= i < |u| ensures u[i] == (key + [QUOTE])[i] {
      assert u[i] == text[q + (i + 1)] == k[i + 1];
    }
    assert text[q + (|key| + 2)] == k[|key| + 2];
    if key != "" {
      assert text[q + 1] == k[1];
    }
  }

  /** Where the quotes of a line are. */
  ghost predicate QuotePlace(l: Line, q: int) {
    || q == 0
    || q == |l.name| + 1
    || (l.value.Quoted? && (q == |l.name| + 3 || q == |l.name| + 4 + |l.value.text|))
  }

  lemma {:induction false} QuotesOfLine(l: Line, q: nat)
    requires LineOk(l) && q < |LineText(l)| && LineText(l)[q] == QUOTE
    ensures QuotePlace(l, q)
  {
    var head, v := "\"" + l.name + "\":", ValueText(l.value);
    assert LineText(l) == head + (v + l.Ending());
    ConcatAt(head, v + l.Ending());
    if q < |head| {
      ConcatAt("\"" + l.name, "\":");
      ConcatAt("\"", l.name);
    } else {
      ConcatAt(v, l.Ending());
      QuotesOfValue(l.value, l.Ending(), q - |head|);
    }
  }

  lemma {:induction false} QuotesOfValue(v: Value, ending: string, q: nat)
    requires Unquoted(v.text) && Unquoted(ending)
    requires q < |ValueText(v) + ending| && (ValueText(v) + ending)[q] == QUOTE
    ensures v.Quoted? && (q == 0 || q == 1 + |v.text|)
  {
    var t := ValueText(v);
    ConcatAt(t, ending);
    if v.Quoted? {
      assert t == "\"" + (v.text + "\"");
      ConcatAt("\"", v.text + "\"");
      ConcatAt(v.text, "\"");
    }
  }

  /** The text of a line after the quote that opens its name. */
  lemma {:induction false} AfterNameQuote(l: Line, rest: string)
    ensures var text, v := LineText(l) + rest, ValueText(l.value);
            text[1..] == l.name + [QUOTE] + ([':'] + v + l.Ending() + rest)
    ensures (LineText(l) + rest)[|l.name| + 2] == ':'
  {
    hide ValueText;
    var text, v := LineText(l) + rest, ValueText(l.value);
    assert text == ([QUOTE] + l.name + [QUOTE]) + ([':'] + v + l.Ending() + rest);
  }

  /** The text of a line after the quotes around a string value. */
  lemma {:induction false} AfterValueQuotes(l: Line, rest: string)
    requires l.value.Quoted? && !l.punctuation.Opening?
    ensures var text := LineText(l) + rest;
              && |l.name| + 5 + |l.value.text| < |text|
              && text[|l.name| + 4..] == l.value.text + [QUOTE] + (l.Ending() + rest)
              && text[|l.name| + 5 + |l.value.text|] == l.Ending()[0]
  {
    var text, s := LineText(l) + rest, l.value.text;
    var head, tail := [QUOTE] + l.name + [QUOTE, ':', QUOTE], l.Ending() + rest;
    assert LineText(l) == head + (s + [QUOTE] + l.Ending());
    ConcatAfter(head, s + [QUOTE] + l.Ending(), rest);
    assert s + [QUOTE] + l.Ending() + rest == s + [QUOTE] + tail;
    assert text[|head|..][|s| + 1] == l.Ending()[0];
  }

  lemma ConcatAfter(a: string, b: string, c: string)
    ensures (a + b + c)[|a|..] == b + c
  {
  }

  /** Within one line a key is found at the start of the line carrying that name and nowhere else:
      not inside a name or value, not across the quotes around a string value. */
  lemma {:induction false} HitsOfLine(l: Line, rest: string, key: string, q: nat)
    requires LineOk(l) && IsName(key)
    requires q < |LineText(l)|
    requires HitAt(LineText(l) + rest, KeyPattern(key), q)
    ensures q == 0 && l.name == key
  {
    hide LineText, ValueText, HitAt;
    var text, n, v := LineText(l) + rest, |l.name|, ValueText(l.value);
    HitReads(text, key, q);
    ConcatAt(LineText(l), rest);
    QuotesOfLine(l, q);
    AfterNameQuote(l, rest);
    if l.value.Quoted? {
      AfterValueQuotes(l, rest);
    }
    if q == 0 {
      QuotedMatch(l.name, [':'] + v + l.Ending() + rest, key);
    } else if q == n + 3 {
      QuotedMatch(l.value.text, l.Ending() + rest, key);
    }
  }

  lemma HitShifts(a: string, b: string, pattern: string, q: nat)
    ensures HitAt(a + b, pattern, |a| + q) <==> HitAt(b, pattern, q)
  {
    if |a| + q + |pattern| <= |a + b| {
      assert (a + b)[|a| + q..|a| + q + |pattern|] == b[q..q + |pattern|];
    }
  }

  /** No line of that name before: no hit before. */
  lemma {:induction false} NoHitBefore(lines: seq<Line>, rest: string, key: string, q: nat)
    requires LinesOk(lines) && IsName(key) && Lacks(lines, key)
    requires q < |LinesText(lines)|
    ensures !HitAt(LinesText(lines) + rest, KeyPattern(key), q)
    decreases |lines|
  {
    hide LineText, HitAt;
    if lines != [] {
      var l, tail := lines[0], LinesText(lines[1..]) + rest;
      Concat3(LineText(l), LinesText(lines[1..]), rest);
      if q < |LineText(l)| {
        if HitAt(LineText(l) + tail, KeyPattern(key), q) {
          HitsOfLine(l, tail, key, q);
        }
      } else {
        HitShifts(LineText(l), tail, KeyPattern(key), q - |LineText(l)|);
        NoHitBefore(lines[1..], rest, key, q - |LineText(l)|);
      }
    }
  }

  /** The object's text: an opening brace, then the lines. */
  function ObjectText(lines: seq<Line>): string {
    "{" + LinesText(lines)
  }

  /** What follows the first hit of a field's key is that field's own value. */
  lemma {:induction false} KeyFound(before: seq<Line>, l: Line, after: seq<Line>)
    requires LinesOk(before + [l] + after) && IsName(l.name) && Lacks(before, l.name)
    ensures var text, k, at := ObjectText(before + [l] + after), KeyPattern(l.name), 1 + |LinesText(before)|;
            && IsFirstHit(text, k, at)
            && at + |k| <= |text|
            && text[at + |k|..] == ValueText(l.value) + l.Ending() + LinesText(after)
  {
    hide LineText, ValueText, HitAt, LinesText, KeyPattern;
    var k, b, v := KeyPattern(l.name), LinesText(before), ValueText(l.value) + l.Ending() + LinesText(after);
    var text, at := ObjectText(before + [l] + after), 1 + |b|;
    SplitAtLine(before, l, after);
    forall i | 0 <= i < |before| ensures LineOk(before[i]) {
      assert before[i] == (before + [l] + after)[i];
    }
    assert text == ("{" + b) + (k + v);
    assert text[at + |k|..] == v;
    HitAtStart(k, v);
    HitShifts("{" + b, k + v, k, 0);
    forall q: nat | q < at ensures !HitAt(text, k, q) {
      assert text == "{" + (b + (k + v));
      if q == 0 {
        NoHitAtBrace(b + (k + v), l.name);
      } else {
        HitShifts("{", b + (k + v), k, q - 1);
        NoHitBefore(before, k + v, l.name, q - 1);
      }
    }
  }

  lemma SplitAtLine(before: seq<Line>, l: Line, after: seq<Line>)
    ensures LinesText(before + [l] + after)
         == LinesText(before) + (KeyPattern(l.name) + (ValueText(l.value) + l.Ending() + LinesText(after)))
  {
    hide LinesText, ValueText;
    LinesTextAppend(before + [l], after);
    LinesTextAppend(before, [l]);
    LinesTextOne(l);
    var k, v, b, a := KeyPattern(l.name), ValueText(l.value), LinesText(before), LinesText(after);
    assert LineText(l) == k + (v + l.Ending());
    Concat3(b, k + (v + l.Ending()), a);
    Concat3(k, v + l.Ending(), a);
  }

  lemma HitAtStart(k: string, v: string)
    ensures HitAt(k + v, k, 0)
  {
  }

  lemma NoHitAtBrace(rest: string, key: string)
    ensures !HitAt("{" + rest, KeyPattern(key), 0)
  {
    if HitAt("{" + rest, KeyPattern(key), 0) {
      HitReads("{" + rest, key, 0);
    }
  }
}
