/**
 * Parsing of the provider configuration string (`REACT_APP_PROVIDERS`):
 * `;`-separated entries of the form `name=url`, read once at start-up
 * (src/App.tsx:347-355).
 */
module ProviderConfig {
  import opened Wrappers

  /**
   * A configured data provider. The source's destructuring
   * `const [name, url] = entry.split('=')` always yields a name (the first
   * piece) but yields `undefined` for the url when the entry has no `=`.
   */
  datatype Provider = Provider(name: string, url: Option<string>)

  /** Number of occurrences of `c` in `s`. */
  function Occurrences(s: string, c: char): nat {
    if s == [] then 0 else (if s[0] == c then 1 else 0) + Occurrences(s[1..], c)
  }

  /** Joins the pieces with `sep` between consecutive ones (JavaScript's `Array.prototype.join`). */
  function Join(parts: seq<string>, sep: char): string {
    if |parts| == 0 then ""
    else if |parts| == 1 then parts[0]
    else parts[0] + [sep] + Join(parts[1..], sep)
  }

  /**
   * JavaScript's `String.prototype.split` with a one-character separator:
   * the maximal runs of text between separators, empty runs included, so
   * there is always one piece more than there are separators.
   */
  function Split(s: string, sep: char): (parts: seq<string>)
    ensures |parts| == Occurrences(s, sep) + 1
    ensures forall i :: 0 <= i < |parts| ==> sep !in parts[i]
    ensures Join(parts, sep) == s
  {
    if s == [] then [""]
    else
      var rest := Split(s[1..], sep);
      if s[0] == sep then
        assert ([""] + rest)[1..] == rest;
        [""] + rest
      else
        var parts := [[s[0]] + rest[0]] + rest[1..];
        assert parts[1..] == rest[1..];
        assert Join(parts, sep) == [s[0]] + Join(rest, sep);
        parts
  }

  /** Splitting text that has no separator gives that text as the only piece. */
  lemma {:induction false} SplitWithoutSeparator(s: string, sep: char)
    requires sep !in s
    ensures Split(s, sep) == [s]
  {
    if s != [] {
      SplitWithoutSeparator(s[1..], sep);
    }
  }

  /** The first piece ends at the first separator. */
  lemma {:induction false} SplitAtFirst(a: string, b: string, sep: char)
    requires sep !in a
    ensures Split(a + [sep] + b, sep) == [a] + Split(b, sep)
  {
    if a == [] {
      assert (a + [sep] + b)[1..] == b;
    } else {
      assert (a + [sep] + b)[1..] == a[1..] + [sep] + b;
      SplitAtFirst(a[1..], b, sep);
      assert [a[0]] + a[1..] == a;
    }
  }

  /** Splitting undoes joining whenever no piece contains the separator. */
  lemma {:induction false} SplitJoin(parts: seq<string>, sep: char)
    requires |parts| >= 1
    requires forall i :: 0 <= i < |parts| ==> sep !in parts[i]
    ensures Split(Join(parts, sep), sep) == parts
  {
    if |parts| == 1 {
      SplitWithoutSeparator(parts[0], sep);
    } else {
      SplitJoin(parts[1..], sep);
      SplitAtFirst(parts[0], Join(parts[1..], sep), sep);
      assert [parts[0]] + parts[1..] == parts;
    }
  }

  /**
   * One configuration entry, destructured as `const [name, url] =
   * entry.split('=')`. The name is the longest prefix free of `=`; the url is
   * absent exactly when the entry has no `=`, and otherwise is the text after
   * the first `=` up to the second `=` or the end; anything after a second
   * `=` is dropped.
   */
  function ParseEntry(entry: string): (p: Provider)
    ensures '=' !in p.name
    ensures p.name <= entry
    ensures p.url.None? <==> '=' !in entry
    ensures p.url.None? ==> p.name == entry
    ensures p.url.Some? ==>
      && '=' !in p.url.value
      && p.name + "=" + p.url.value <= entry
      && var end := |p.name| + 1 + |p.url.value|;
         end == |entry| || entry[end] == '='
  {
    var fields := Split(entry, '=');
    assert |fields| >= 2 ==> entry == fields[0] + "=" + Join(fields[1..], '=');
    assert |fields| > 2 ==> Join(fields[1..], '=') == fields[1] + "=" + Join(fields[2..], '=');
    Provider(fields[0], if |fields| >= 2 then Some(fields[1]) else None)
  }

  /** An entry `name=url` with no `=` in either part parses to exactly that name and url. */
  lemma EntryRoundTrip(name: string, url: string)
    requires '=' !in name && '=' !in url
    ensures ParseEntry(name + "=" + url) == Provider(name, Some(url))
  {
    SplitJoin([name, url], '=');
    assert Join([name, url], '=') == name + "=" + url;
  }

  /** A configuration holding one entry `name=url` (no `;`, no extra `=`) yields that single provider. */
  lemma SingleEntryConfig(name: string, url: string)
    requires '=' !in name && '=' !in url
    requires ';' !in name && ';' !in url
    ensures var entries := Split(name + "=" + url, ';');
      |entries| == 1 && ParseEntry(entries[0]) == Provider(name, Some(url))
  {
    assert ';' !in name + "=" + url;
    SplitWithoutSeparator(name + "=" + url, ';');
    EntryRoundTrip(name, url);
  }

  /**
   * Reads the provider list from the optional environment variable: a
   * missing variable counts as the empty string, and every `;`-separated
   * entry, in order, becomes one provider.
   */
  method ParseProviders(env: Option<string>) returns (providers: seq<Provider>)
    ensures var entries := Split(env.GetOr(""), ';');
      && |providers| == |entries|
      && forall i :: 0 <= i < |entries| ==> providers[i] == ParseEntry(entries[i])
    ensures env.GetOr("") == "" ==> providers == [Provider("", None)]
  {
    var config := env.GetOr("");
    var entries := Split(config, ';');
    providers := [];
    for i := 0 to |entries|
      invariant |providers| == i
      invariant forall k :: 0 <= k < i ==> providers[k] == ParseEntry(entries[k])
    {
      var fields := Split(entries[i], '=');
      var name := fields[0];
      var url := if |fields| >= 2 then Some(fields[1]) else None;
      providers := providers + [Provider(name, url)];
    }
  }
}
