/** Domain rule values (`rulespec/domain.go`): how a value is parsed, what
    hosts it means, and the text handed to Xray and to Mosdns for it. */
module Domains {

  // ------------------------------------------------------------------ text

  function LowerChar(c: char): char
  {
    if 'A' <= c <= 'Z' then (c as int + 32) as char else c
  }

  function Lower(s: string): (r: string)
    ensures |r| == |s| && forall i :: 0 <= i < |s| ==> r[i] == LowerChar(s[i])
  {
    seq(|s|, i requires 0 <= i < |s| => LowerChar(s[i]))
  }

  /** White space as `unicode.IsSpace` has it. */
  predicate IsSpace(c: char)
  {
    || c in {' ', '\t', '\n', '\r', '\U{0B}', '\U{0C}', '\U{85}', '\U{A0}', '\U{1680}'}
    || '\U{2000}' <= c <= '\U{200A}'
    || c in {'\U{2028}', '\U{2029}', '\U{202F}', '\U{205F}', '\U{3000}'}
  }

  function TrimSpace(s: string): string
  {
    if s == "" then ""
    else if IsSpace(s[0]) then TrimSpace(s[1..])
    else if IsSpace(s[|s| - 1]) then TrimSpace(s[..|s| - 1])
    else s
  }

  /** `strings.TrimSuffix(s, ".")`: at most one dot goes. */
  function TrimDot(s: string): string
  {
    if s != "" && s[|s| - 1] == '.' then s[..|s| - 1] else s
  }

  function Normalise(s: string): string { Lower(TrimDot(TrimSpace(s))) }

  predicate HasPrefix(s: string, p: string) { p <= s }

  predicate HasSuffix(s: string, t: string)
  {
    |t| <= |s| && s[|s| - |t|..] == t
  }

  /** `strings.Split(s, ".")`. */
  function Split(s: string): (parts: seq<string>)
    ensures |parts| >= 1
  {
    if s == "" then [""]
    else if s[0] == '.' then [""] + Split(s[1..])
    else
      var rest := Split(s[1..]);
      [[s[0]] + rest[0]] + rest[1..]
  }

  // --------------------------------------------------------------- parsing

  datatype Kind = Full | Suffix | SingleLevel

  datatype Pattern = Pattern(raw: string, kind: Kind, base: string)

  datatype Parsed = Ok(pattern: Pattern) | Empty | BadWildcard | NoRoot | BadLabel

  predicate Alnum(c: char) { 'a' <= c <= 'z' || '0' <= c <= '9' }

  predicate ValidLabel(s: string)
  {
    && 1 <= |s| <= 63
    && Alnum(s[0]) && Alnum(s[|s| - 1])
    && forall c :: c in s ==> Alnum(c) || c == '-'
  }

  function Wildcard(p: Pattern): bool { p.kind != Full }

  function Classify(raw: string): Pattern
  {
    if HasPrefix(raw, "**.") then Pattern(raw, Suffix, raw[3..])
    else if HasPrefix(raw, "*.") then Pattern(raw, SingleLevel, raw[2..])
    else Pattern(raw, Full, raw)
  }

  function ParseRaw(raw: string): (r: Parsed)
    ensures r.Ok? ==> r.pattern == Classify(raw)
  {
    if raw == "" then Empty
    else
      var p := Classify(raw);
      if '*' in p.base then BadWildcard
      else if |Split(p.base)| < 2 then NoRoot
      else if exists l :: l in Split(p.base) && !ValidLabel(l) then BadLabel
      else Ok(p)
  }

  function ParseDomain(input: string): Parsed { ParseRaw(Normalise(input)) }

  /** `DomainPattern.Matches`. */
  predicate Matches(p: Pattern, host: string)
  {
    var h := Normalise(host);
    h != "" &&
    match p.kind
    case Full => h == p.base
    case Suffix => h == p.base || HasSuffix(h, "." + p.base)
    case SingleLevel =>
      h == p.base ||
      (HasSuffix(h, "." + p.base) &&
       var rest := h[..|h| - |p.base| - 1]; rest != "" && '.' !in rest)
  }

  // ------------------------------------------------------ emitted patterns

  /** A host matcher as Xray and Mosdns read it. `OneLabel` is the fixed
      regular expression "an optional dot-free label and a dot, then this
      escaped text", anchored at both ends. */
  datatype HostPattern =
    | FullHost(text: string)
    | SubDomain(text: string)
    | Keyword(text: string)
    | OneLabel(quoted: string)
    | Regexp(text: string)

  predicate Special(c: char)
  {
    c in {'\\', '.', '+', '*', '?', '(', ')', '|', '[', ']', '{', '}', '^', '$'}
  }

  /** `regexp.QuoteMeta`. */
  function QuoteMeta(s: string): string
  {
    if s == "" then "" else (if Special(s[0]) then ['\\', s[0]] else [s[0]]) + QuoteMeta(s[1..])
  }

  /** `strings.ReplaceAll(s, ".", "\.")`. */
  function EscapeDots(s: string): string
  {
    if s == "" then "" else (if s[0] == '.' then "\\." else [s[0]]) + EscapeDots(s[1..])
  }

  datatype Literal = Text(text: string) | Operators

  function Prepend(c: char, l: Literal): Literal
  {
    match l
    case Text(t) => Text([c] + t)
    case Operators => Operators
  }

  /** The one text an escaped pattern stands for, if it has no operators. */
  function LiteralOf(q: string): (r: Literal)
  {
    if q == "" then Text("")
    else if q[0] == '\\' then
      if |q| >= 2 && Special(q[1]) then Prepend(q[1], LiteralOf(q[2..])) else Operators
    else if Special(q[0]) then Operators
    else Prepend(q[0], LiteralOf(q[1..]))
  }

  function XrayValue(p: Pattern): HostPattern
  {
    match p.kind
    case Suffix => SubDomain(p.base)
    case SingleLevel => OneLabel(QuoteMeta(p.base))
    case Full => FullHost(p.base)
  }

  function MosdnsValue(p: Pattern): HostPattern
  {
    match p.kind
    case Suffix => SubDomain(p.base)
    case SingleLevel => OneLabel(EscapeDots(p.base))
    case Full => FullHost(p.base)
  }

  /** What a matcher accepts; `regex` decides free regular expressions. */
  ghost predicate Accepts(m: HostPattern, host: string, regex: (string, string) -> bool)
  {
    match m
    case FullHost(t) => host == t
    case SubDomain(t) => host == t || exists sub: string :: host == sub + "." + t
    case Keyword(t) => exists pre: string, post: string :: host == pre + t + post
    case OneLabel(q) =>
      LiteralOf(q).Text? &&
      (host == LiteralOf(q).text ||
       exists sub: string :: sub != "" && '.' !in sub && host == sub + "." + LiteralOf(q).text)
    case Regexp(t) => regex(t, host)
  }

  predicate IsNormal(host: string)
  {
    host != "" && Normalise(host) == host
  }

  // ---------------------------------------------------------------- lemmas

  lemma {:induction false} QuoteMetaMeansItself(s: string)
    ensures LiteralOf(QuoteMeta(s)) == Text(s)
  {
    if s != "" {
      QuoteMetaMeansItself(s[1..]);
      var q := QuoteMeta(s);
      if Special(s[0]) {
        assert q[2..] == QuoteMeta(s[1..]);
      } else {
        assert q[1..] == QuoteMeta(s[1..]);
      }
      assert s == [s[0]] + s[1..];
    }
  }

  predicate PlainButDots(s: string)
  {
    forall c :: c in s ==> c == '.' || !Special(c)
  }

  lemma {:induction false} EscapeDotsMeansItself(s: string)
    requires PlainButDots(s)
    ensures LiteralOf(EscapeDots(s)) == Text(s)
  {
    if s != "" {
      EscapeDotsMeansItself(s[1..]);
      var q := EscapeDots(s);
      if s[0] == '.' {
        assert q[2..] == EscapeDots(s[1..]);
      } else {
        assert s[0] in s;
        assert q[1..] == EscapeDots(s[1..]);
      }
      assert s == [s[0]] + s[1..];
    }
  }

  predicate HostChar(c: char) { Alnum(c) || c == '-' || c == '.' }

  lemma {:induction false} ValidLabelsAreHostChars(s: string)
    requires forall l, c :: l in Split(s) && c in l ==> HostChar(c)
    ensures forall c :: c in s ==> HostChar(c)
  {
    if s != "" {
      var tail := Split(s[1..]);
      if s[0] == '.' {
        assert forall l :: l in tail ==> l in Split(s);
      } else {
        var parts := Split(s);
        assert parts[0] == [s[0]] + tail[0] && parts[1..] == tail[1..];
        forall l, c | l in tail && c in l
          ensures HostChar(c)
        {
          if l == tail[0] {
            assert c in parts[0];
          } else {
            assert l in tail[1..] && l in parts[1..];
          }
        }
        assert s[0] in parts[0];
      }
      ValidLabelsAreHostChars(s[1..]);
      assert s == [s[0]] + s[1..];
    }
  }

  lemma ParsedBase(input: string)
    requires ParseDomain(input).Ok?
    ensures var p := ParseDomain(input).pattern;
      p.base != "" && forall c :: c in p.base ==> HostChar(c)
  {
    var p := ParseDomain(input).pattern;
    forall l, c | l in Split(p.base) && c in l
      ensures HostChar(c)
    {
      assert ValidLabel(l);
    }
    ValidLabelsAreHostChars(p.base);
  }

  lemma SuffixIsAppend(h: string, t: string)
    ensures HasSuffix(h, t) <==> exists pre: string :: h == pre + t
  {
    if HasSuffix(h, t) {
      assert h == h[..|h| - |t|] + t;
    }
  }

  lemma DotSuffixIsAppend(h: string, t: string)
    ensures HasSuffix(h, "." + t) <==> exists pre: string :: h == pre + "." + t
  {
    SuffixIsAppend(h, "." + t);
    forall pre: string
      ensures pre + "." + t == pre + ("." + t)
    {
    }
  }

  /** The anchored pattern accepts the base and the base under one label. */
  lemma OneLabelAccepts(quoted: string, base: string, host: string, regex: (string, string) -> bool)
    requires LiteralOf(quoted) == Text(base)
    ensures Accepts(OneLabel(quoted), host, regex) <==>
      (host == base ||
       (HasSuffix(host, "." + base) &&
        var rest := host[..|host| - |base| - 1]; rest != "" && '.' !in rest))
  {
    DotSuffixIsAppend(host, base);
    forall sub: string | host == sub + "." + base
      ensures host[..|host| - |base| - 1] == sub
    {
    }
    if HasSuffix(host, "." + base) {
      var rest := host[..|host| - |base| - 1];
      assert host == rest + "." + base;
    }
  }

  /** The rule language, the Xray text and the Mosdns text mean the same
      hosts, for every value that parses. */
  lemma SameHosts(input: string, host: string, regex: (string, string) -> bool)
    requires ParseDomain(input).Ok? && IsNormal(host)
    ensures var p := ParseDomain(input).pattern;
      && (Matches(p, host) <==> Accepts(XrayValue(p), host, regex))
      && (Matches(p, host) <==> Accepts(MosdnsValue(p), host, regex))
  {
    var p := ParseDomain(input).pattern;
    match p.kind
    case Full =>
    case Suffix =>
      DotSuffixIsAppend(host, p.base);
    case SingleLevel =>
      ParsedBase(input);
      assert PlainButDots(p.base);
      QuoteMetaMeansItself(p.base);
      EscapeDotsMeansItself(p.base);
      OneLabelAccepts(QuoteMeta(p.base), p.base, host, regex);
      OneLabelAccepts(EscapeDots(p.base), p.base, host, regex);
  }

  lemma TrimSpaceIdle(s: string)
    requires s == "" || (!IsSpace(s[0]) && !IsSpace(s[|s| - 1]))
    ensures TrimSpace(s) == s
  {
  }

  lemma LowerIdle(s: string)
    requires forall c :: c in s ==> LowerChar(c) == c
    ensures Lower(s) == s
  {
    assert forall i :: 0 <= i < |s| ==> s[i] in s;
  }

  lemma {:induction false} SplitDots(s: string)
    requires s != "" && s[|s| - 1] == '.'
    ensures |Split(s)| >= 2
  {
    if |s| > 1 {
      SplitDots(s[1..]);
    }
  }

  /** The last piece of a split ends as the text does. */
  lemma {:induction false} SplitLast(s: string)
    requires s != "" && s[|s| - 1] == '.'
    ensures Split(s)[|Split(s)| - 1] == ""
  {
    if |s| > 1 {
      SplitLast(s[1..]);
      SplitDots(s[1..]);
    }
  }

  lemma NormaliseIdle(s: string)
    requires s != "" && s[|s| - 1] != '.'
    requires forall c :: c in s ==> !IsSpace(c) && LowerChar(c) == c
    ensures Normalise(s) == s
  {
    assert s[0] in s && s[|s| - 1] in s;
    TrimSpaceIdle(s);
    LowerIdle(s);
  }

  /** h is s with its ASCII capitals as small letters. */
  ghost predicate SmallOf(s: string, h: string)
  {
    |s| == |h| && forall i :: 0 <= i < |s| ==>
      (if 'A' <= s[i] <= 'Z' then 'a' as int - 'A' as int == h[i] as int - s[i] as int else h[i] == s[i])
  }

  lemma {:induction false} TrimPadded(pre: string, m: string, post: string)
    requires forall c :: c in pre + post ==> IsSpace(c)
    requires m != "" && !IsSpace(m[0]) && !IsSpace(m[|m| - 1])
    ensures TrimSpace(pre + m + post) == m
    decreases |pre| + |post|
  {
    var s := pre + m + post;
    if pre != "" {
      assert pre[0] in pre + post && s[0] == pre[0] && s[1..] == pre[1..] + m + post;
      assert forall c :: c in pre[1..] + post ==> c in pre + post;
      TrimPadded(pre[1..], m, post);
    } else if post != "" {
      var last := post[|post| - 1];
      assert last in pre + post && s[|s| - 1] == last && s[0] == m[0];
      assert s[..|s| - 1] == pre + m + post[..|post| - 1];
      assert forall c :: c in pre + post[..|post| - 1] ==> c in pre + post;
      TrimPadded(pre, m, post[..|post| - 1]);
    } else {
      assert s == m;
      TrimSpaceIdle(m);
    }
  }

  /** White space around a name, one dot at its end and capitals in it do not
      count. */
  lemma NormaliseForgets(pre: string, m: string, dot: bool, post: string, h: string)
    requires forall c :: c in pre + post ==> IsSpace(c)
    requires m != "" && !IsSpace(m[0]) && !IsSpace(m[|m| - 1]) && m[|m| - 1] != '.' && SmallOf(m, h)
    ensures Normalise(pre + (m + if dot then "." else "") + post) == h
  {
    var body := m + if dot then "." else "";
    TrimPadded(pre, body, post);
    assert TrimDot(body) == m;
    assert Lower(m) == h;
  }

  lemma BaseHasNoFinalDot(input: string)
    requires ParseDomain(input).Ok?
    ensures var b := ParseDomain(input).pattern.base; b != "" && b[|b| - 1] != '.'
  {
    var b := ParseDomain(input).pattern.base;
    ParsedBase(input);
    assert !ValidLabel("");
    assert "" !in Split(b);
    if b[|b| - 1] == '.' {
      SplitLast(b);
      assert false;
    }
  }

  lemma NormalHostChars(b: string)
    requires IsNormal(b) && ParseRaw(b).Ok? && '*' !in b
    ensures ParseDomain(b) == Ok(Pattern(b, Full, b))
    ensures b[|b| - 1] != '.' && forall c :: c in b ==> HostChar(c)
  {
    assert b[0] in b;
    BaseHasNoFinalDot(b);
    ParsedBase(b);
  }

  lemma StarredIsNormal(b: string, stars: string)
    requires b != "" && b[|b| - 1] != '.' && (forall c :: c in b ==> HostChar(c)) && stars in ["*.", "**."]
    ensures Normalise(stars + b) == stars + b
  {
    forall c | c in stars + b
      ensures !IsSpace(c) && LowerChar(c) == c
    {
      assert c == '*' || HostChar(c);
    }
    NormaliseIdle(stars + b);
  }

  lemma StarredParses(b: string, stars: string)
    requires IsNormal(b) && ParseRaw(b).Ok? && '*' !in b && stars in ["*.", "**."]
    ensures ParseDomain(stars + b) == Ok(Pattern(stars + b, if stars == "*." then SingleLevel else Suffix, b))
  {
    NormalHostChars(b);
    var raw := stars + b;
    StarredIsNormal(b, stars);
    assert raw[|stars|..] == b;
    if stars == "*." {
      assert raw[1] == '.';
      assert !HasPrefix(raw, "**.");
    }
  }

  /** What the three forms of a value mean, for a plain name b. */
  lemma PatternMeaning(b: string, h: string)
    requires IsNormal(b) && ParseRaw(b).Ok? && '*' !in b && IsNormal(h)
    ensures var p := ParseDomain(b); p.Ok? && (Matches(p.pattern, h) <==> h == b)
    ensures var p := ParseDomain("*." + b);
      p.Ok? && (Matches(p.pattern, h) <==> h == b || exists sub: string :: sub != "" && '.' !in sub && h == sub + "." + b)
    ensures var p := ParseDomain("**." + b);
      p.Ok? && (Matches(p.pattern, h) <==> h == b || exists sub: string :: h == sub + "." + b)
  {
    NormalHostChars(b);
    StarredParses(b, "*.");
    StarredParses(b, "**.");
    DotSuffixIsAppend(h, b);
    QuoteMetaMeansItself(b);
    OneLabelAccepts(QuoteMeta(b), b, h, (t: string, x: string) => false);
  }

  const LETTERS: string := "abcdefghijklmnopqrstuvwxyz"
  const DIGITS: string := "0123456789"

  lemma LettersInOrder(c: char)
    ensures c in LETTERS <==> 'a' <= c <= 'z'
  {
    assert |LETTERS| == 26;
    assert forall i :: 0 <= i < 26 ==> LETTERS[i] as int == 'a' as int + i;
    if 'a' <= c <= 'z' {
      assert LETTERS[c as int - 'a' as int] == c;
    }
  }

  lemma DigitsInOrder(c: char)
    ensures c in DIGITS <==> '0' <= c <= '9'
  {
    assert |DIGITS| == 10;
    assert forall i :: 0 <= i < 10 ==> DIGITS[i] as int == '0' as int + i;
    if '0' <= c <= '9' {
      assert DIGITS[c as int - '0' as int] == c;
    }
  }

  lemma AlnumIsAlphabet(c: char)
    ensures Alnum(c) <==> c in LETTERS || c in DIGITS
  {
    LettersInOrder(c);
    DigitsInOrder(c);
  }

  /** Two alphanumerics with at most 61 alphanumerics or hyphens between. */
  ghost predicate LongLabel(s: string, c: char, mid: string, d: char)
  {
    s == [c] + mid + [d] && Alnum(c) && Alnum(d) && |mid| <= 61 && forall x :: x in mid ==> Alnum(x) || x == '-'
  }

  /** A label as the pattern of the source has it. */
  lemma LabelPattern(s: string)
    ensures ValidLabel(s) <==> (|s| == 1 && Alnum(s[0])) || exists c, mid, d :: LongLabel(s, c, mid, d)
  {
    if ValidLabel(s) && |s| > 1 {
      var mid := s[1..|s| - 1];
      assert s == [s[0]] + mid + [s[|s| - 1]];
      assert forall x :: x in mid ==> x in s;
      assert LongLabel(s, s[0], mid, s[|s| - 1]);
    }
    if c, mid, d :| LongLabel(s, c, mid, d) {
      assert s[0] == c && s[|s| - 1] == d;
      assert forall x :: x in s ==> x == c || x == d || x in mid;
    }
  }

  /** In a host name the dots, and only they, are escaped. */
  lemma {:induction false} QuoteEscapesDots(s: string)
    requires forall c :: c in s ==> HostChar(c)
    ensures QuoteMeta(s) == EscapeDots(s)
  {
    if s != "" {
      assert s[0] in s;
      QuoteEscapesDots(s[1..]);
    }
  }

  lemma RawIsStarred(input: string) returns (stars: string)
    requires ParseDomain(input).Ok?
    ensures stars in ["", "*.", "**."]
    ensures ParseDomain(input).pattern.raw == stars + ParseDomain(input).pattern.base
  {
    var p := ParseDomain(input).pattern;
    stars := if p.kind == Suffix then "**." else if p.kind == SingleLevel then "*." else "";
  }

  lemma StarredIsIdle(stars: string, b: string)
    requires stars in ["", "*.", "**."] && b != "" && b[|b| - 1] != '.' && forall c :: c in b ==> HostChar(c)
    ensures Normalise(stars + b) == stars + b
  {
    assert forall c :: c in stars + b ==> c in stars || c in b;
    assert forall c :: c in stars ==> c == '*' || c == '.';
    assert (stars + b)[|stars + b| - 1] == b[|b| - 1];
    NormaliseIdle(stars + b);
  }

  lemma RawIsIdle(input: string)
    requires ParseDomain(input).Ok?
    ensures Normalise(ParseDomain(input).pattern.raw) == ParseDomain(input).pattern.raw
  {
    ParsedBase(input);
    BaseHasNoFinalDot(input);
    var stars := RawIsStarred(input);
    StarredIsIdle(stars, ParseDomain(input).pattern.base);
  }

  /** A stored value parses again to the same pattern. */
  lemma ParseIsStable(input: string)
    requires ParseDomain(input).Ok?
    ensures ParseDomain(ParseDomain(input).pattern.raw) == ParseDomain(input)
  {
    RawIsIdle(input);
  }
}
