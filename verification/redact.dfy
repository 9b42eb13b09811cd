/**
 * The redaction that `logging_utils.py` applies before a request is logged:
 * credential headers are masked by name, ignoring case, and chosen query
 * parameters are masked by key. URLs are taken already split into their five
 * parts with the query decoded into pairs, which is what `urlsplit` and
 * `parse_qsl` produce.
 */
module Redact {

  import opened Wrappers
  import opened Py
  import opened Text

  const Redacted: string := "<redacted>"

  /** The header names whose values never reach the log, compared after lowercasing. */
  predicate IsCredentialHeader(name: string) {
    Lower(name) in {"authorization", "cookie"}
  }

  /** `_safe_headers`: every header kept, credential headers with their value masked. */
  function SafeHeaders(headers: Option<map<string, Value>>): (out: map<string, Value>)
    ensures headers.None? ==> out == map[]
    ensures headers.Some? ==> out.Keys == headers.value.Keys
    ensures headers.Some? ==> forall k :: k in out ==>
      out[k] == (if IsCredentialHeader(k) then Str(Redacted) else headers.value[k])
  {
    var h := headers.GetOr(map[]);
    map k | k in h :: if IsCredentialHeader(k) then Str(Redacted) else h[k]
  }

  const KelvinSign: char := '\U{212A}'

  function UpperAscii(c: char): char {
    if 'a' <= c <= 'z' then (c as int - 32) as char else c
  }

  /**
   * `name` spells the lowercase ASCII word `word` in any mix of cases: each character
   * is the letter, its capital, or (for 'k') the Kelvin sign, which Python lowercases to 'k'.
   */
  predicate SpellsIgnoringCase(name: string, word: string) {
    |name| == |word| &&
    forall i :: 0 <= i < |name| ==>
      name[i] == word[i] || name[i] == UpperAscii(word[i]) || (word[i] == 'k' && name[i] == KelvinSign)
  }

  lemma LowerCharIs(c: char, w: char)
    requires 'a' <= w <= 'z'
    ensures LowerChar(c) == w <==> c == w || c == UpperAscii(w) || (w == 'k' && c == KelvinSign)
  {
  }

  /** Lowercasing gives a lowercase ASCII word exactly when the text spells it ignoring case. */
  lemma {:induction false} LowerIsWord(name: string, word: string)
    requires forall i :: 0 <= i < |word| ==> 'a' <= word[i] <= 'z'
    ensures Lower(name) == word <==> SpellsIgnoringCase(name, word)
  {
    if |name| == |word| {
      forall i | 0 <= i < |name| ensures LowerChar(name[i]) == word[i] <==>
        name[i] == word[i] || name[i] == UpperAscii(word[i]) || (word[i] == 'k' && name[i] == KelvinSign)
      {
        LowerCharIs(name[i], word[i]);
      }
      if SpellsIgnoringCase(name, word) {
        assert forall i :: 0 <= i < |name| ==> Lower(name)[i] == word[i];
      }
    }
  }

  /** A header is masked exactly when its name is "Authorization" or "Cookie" in some mix of cases. */
  lemma CredentialHeaderAnyCase(name: string)
    ensures IsCredentialHeader(name) <==> SpellsIgnoringCase(name, "authorization") || SpellsIgnoringCase(name, "cookie")
  {
    LowerIsWord(name, "authorization");
    LowerIsWord(name, "cookie");
  }

  /** Masking is idempotent: masked headers stay masked and nothing else changes. */
  lemma SafeHeadersIdempotent(headers: map<string, Value>)
    ensures SafeHeaders(Some(SafeHeaders(Some(headers)))) == SafeHeaders(Some(headers))
  {
  }

  /** The query-pair loop of `sanitize_url`: pairs in order, the values of redacted keys masked. */
  function SanitizeQuery(pairs: seq<(string, string)>, redact: set<string>): (out: seq<(string, string)>)
    ensures |out| == |pairs|
    ensures forall i :: 0 <= i < |pairs| ==> out[i].0 == pairs[i].0
    ensures forall i :: 0 <= i < |pairs| ==> out[i].1 == (if pairs[i].0 in redact then Redacted else pairs[i].1)
  {
    if pairs == [] then []
    else
      var (k, v) := pairs[0];
      [(k, if k in redact then Redacted else v)] + SanitizeQuery(pairs[1..], redact)
  }

  /** With nothing to redact the query is unchanged. */
  lemma {:induction false} SanitizeQueryNothingToRedact(pairs: seq<(string, string)>)
    ensures SanitizeQuery(pairs, {}) == pairs
  {
    if pairs != [] {
      SanitizeQueryNothingToRedact(pairs[1..]);
    }
  }

  /** Sanitising twice is sanitising once. */
  lemma {:induction false} SanitizeQueryIdempotent(pairs: seq<(string, string)>, redact: set<string>)
    ensures SanitizeQuery(SanitizeQuery(pairs, redact), redact) == SanitizeQuery(pairs, redact)
  {
    if pairs != [] {
      SanitizeQueryIdempotent(pairs[1..], redact);
    }
  }

  /** A URL split into the five parts `urlsplit` returns, its query decoded into pairs. */
  datatype Url = Url(scheme: string, netloc: string, path: string, query: seq<(string, string)>, fragment: string)

  /** `sanitize_url`: only the query changes. */
  function SanitizeUrl(url: Url, redactQueryKeys: Option<set<string>>): (r: Url)
    ensures r.scheme == url.scheme && r.netloc == url.netloc && r.path == url.path && r.fragment == url.fragment
    ensures r.query == SanitizeQuery(url.query, redactQueryKeys.GetOr({}))
  {
    url.(query := SanitizeQuery(url.query, redactQueryKeys.GetOr({})))
  }

  /** Without redact keys the URL comes back unchanged. */
  lemma SanitizeUrlNoKeys(url: Url)
    ensures SanitizeUrl(url, None) == url
    ensures SanitizeUrl(url, Some({})) == url
  {
    SanitizeQueryNothingToRedact(url.query);
  }
}
