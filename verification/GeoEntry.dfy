/** Geosite records (`geo/geo.go`) and the linear matcher of the trace. */
module GeoEntry {
  import opened Domains

  /** `KindUnknown` is the value the decoder stores for kinds it does not know. */
  datatype EntryKind = KindPlain | KindRegex | KindRoot | KindFull | KindUnknown

  datatype Entry = Entry(kind: EntryKind, value: string, attrs: seq<string>)

  /** Concrete names only: DNS cannot resolve a keyword or an expression. */
  predicate Resolvable(e: Entry) { e.kind == KindRoot || e.kind == KindFull }

  /** `Entry.XrayValue`; `Entry.MosdnsValue` has the same branches. */
  function EntryValue(e: Entry): HostPattern
  {
    match e.kind
    case KindPlain => Keyword(e.value)
    case KindRegex => Regexp(e.value)
    case KindRoot => SubDomain(e.value)
    case KindFull => FullHost(e.value)
    case KindUnknown => FullHost(e.value)
  }

  predicate TextAt(s: string, t: string, i: nat)
  {
    i + |t| <= |s| && s[i..i + |t|] == t
  }

  /** `strings.Contains`. */
  predicate ContainsText(s: string, t: string)
  {
    exists i :: 0 <= i <= |s| && TextAt(s, t, i)
  }

  /** `entryMatches`. */
  predicate EntryMatches(e: Entry, host: string, regex: (string, string) -> bool)
  {
    match e.kind
    case KindFull => host == e.value
    case KindRoot => host == e.value || HasSuffix(host, "." + e.value)
    case KindPlain => ContainsText(host, e.value)
    case KindRegex => regex(e.value, host)
    case KindUnknown => false
  }

  lemma ContainsTextIsInfix(s: string, t: string)
    ensures ContainsText(s, t) <==> exists pre: string, post: string :: s == pre + t + post
  {
    if ContainsText(s, t) {
      var i :| 0 <= i <= |s| && TextAt(s, t, i);
      assert s == s[..i] + t + s[i + |t|..];
    }
    forall pre: string, post: string | s == pre + t + post
      ensures ContainsText(s, t)
    {
      assert TextAt(s, t, |pre|);
    }
  }

  /** The trace's matcher and the emitted text agree on a host exactly when
      the record's kind is known or the host is not its text: a record of an
      unknown kind is emitted as an exact name and traced as matching nothing. */
  lemma EntryMeaning(e: Entry, host: string, regex: (string, string) -> bool)
    ensures (EntryMatches(e, host, regex) <==> Accepts(EntryValue(e), host, regex))
       <==> (e.kind != KindUnknown || host != e.value)
  {
    DotSuffixIsAppend(host, e.value);
    ContainsTextIsInfix(host, e.value);
  }

  lemma UnknownKindDisagrees(regex: (string, string) -> bool)
    ensures var e := Entry(KindUnknown, "a.com", []);
      Accepts(EntryValue(e), "a.com", regex) && !EntryMatches(e, "a.com", regex)
  {
  }
}
