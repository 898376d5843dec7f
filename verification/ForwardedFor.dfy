/** The client address taken from the headers that trusted reverse proxies add. */
module ForwardedFor {
  import opened Recency
  import opened Text

  /** Trimming of white space and address parsing; parsing gives the canonical text of a valid address. */
  datatype Library = Library(trim: string -> string, parse: string -> Option<string>)

  datatype Extractor = Extractor(trustedXForwardedFor: bool, trustedProxyCount: int)

  function Fallback(lib: Library, xRealIP: string): (r: string) {
    var v := lib.trim(xRealIP);
    if v != "" && lib.parse(v).Some? then lib.parse(v).value else ""
  }

  function ClientIp(e: Extractor, lib: Library, xRealIP: string, xff: string): (r: string) {
    if !e.trustedXForwardedFor || e.trustedProxyCount <= 0 then ""
    else
      var parts := Split(xff, ',');
      var idx := |parts| - e.trustedProxyCount;
      if xff != "" && 0 <= idx && lib.parse(lib.trim(parts[idx])).Some? then lib.parse(lib.trim(parts[idx])).value
      else Fallback(lib, xRealIP)
  }

  /** Nothing is not an address. */
  ghost predicate Sound(lib: Library) {
    lib.trim("") == "" && lib.parse("").None?
  }

  predicate Trusting(e: Extractor) {
    e.trustedXForwardedFor && e.trustedProxyCount >= 1
  }

  /** What an entry gives. */
  function Chosen(lib: Library, xRealIP: string, entry: string): (r: string) {
    var ip := lib.parse(lib.trim(entry));
    if ip.Some? then ip.value else Fallback(lib, xRealIP)
  }

  /** Forwarded headers count only for a trusting extractor: otherwise the answer is nothing, whatever they hold. */
  lemma Untrusted(e: Extractor, lib: Library, xRealIP: string, xff: string)
    requires !e.trustedXForwardedFor || e.trustedProxyCount <= 0
    ensures ClientIp(e, lib, xRealIP, xff) == ""
  {
  }

  /** A missing header, or one with too few entries, leaves the single address: parsed, or nothing if it is none. */
  lemma TooFew(e: Extractor, lib: Library, xRealIP: string, xff: string)
    requires e.trustedXForwardedFor && e.trustedProxyCount >= 1
    requires xff == "" || |Split(xff, ',')| < e.trustedProxyCount
    ensures var v := lib.trim(xRealIP);
            && (v != "" && lib.parse(v).Some? ==> ClientIp(e, lib, xRealIP, xff) == lib.parse(v).value)
            && (v == "" || lib.parse(v).None? ==> ClientIp(e, lib, xRealIP, xff) == "")
  {
  }

  /** An entry in the selected place that parses is the answer; one that does not leaves the single address. */
  lemma EnoughEntries(e: Extractor, lib: Library, xRealIP: string, xff: string)
    requires e.trustedXForwardedFor && e.trustedProxyCount >= 1
    requires xff != "" && |Split(xff, ',')| >= e.trustedProxyCount
    ensures var parts := Split(xff, ',');
            var ip := lib.parse(lib.trim(parts[|parts| - e.trustedProxyCount]));
            && (ip.Some? ==> ClientIp(e, lib, xRealIP, xff) == ip.value)
            && (ip.None? ==> ClientIp(e, lib, xRealIP, xff) == ClientIp(e, lib, xRealIP, ""))
  {
    SplitFree("", ',');
    hide Split;
  }

  /** With enough entries the hop count alone selects one, counted from the right. */
  lemma Selected(e: Extractor, lib: Library, xRealIP: string, xff: string)
    requires Trusting(e) && Sound(lib) && |Split(xff, ',')| >= e.trustedProxyCount
    ensures var parts := Split(xff, ',');
            ClientIp(e, lib, xRealIP, xff) == Chosen(lib, xRealIP, parts[|parts| - e.trustedProxyCount])
  {
    SplitFree("", ',');
    hide Split, Fallback;
  }

  /** Whatever comma-separated text stands before a header with enough entries, the address is the same. */
  lemma PrefixInsensitive(e: Extractor, lib: Library, xRealIP: string, xff: string, before: string)
    requires Sound(lib) && |Split(xff, ',')| >= e.trustedProxyCount
    ensures ClientIp(e, lib, xRealIP, before + "," + xff) == ClientIp(e, lib, xRealIP, xff)
  {
    hide Split, Chosen, Fallback;
    if Trusting(e) {
      hide ClientIp;
      SplitConcat(before, xff, ',');
      Selected(e, lib, xRealIP, xff);
      Selected(e, lib, xRealIP, before + "," + xff);
    }
  }

  /** The entry that the outermost trusted proxy recorded decides, whatever stands before the proxies' entries. */
  lemma OutermostProxyDecides(e: Extractor, lib: Library, xRealIP: string, recorded: seq<string>, before: string)
    requires Trusting(e) && Sound(lib) && |recorded| == e.trustedProxyCount
    requires forall i :: 0 <= i < |recorded| ==> Free(recorded[i], ',')
    ensures ClientIp(e, lib, xRealIP, Join(recorded, ',')) == Chosen(lib, xRealIP, recorded[0])
    ensures ClientIp(e, lib, xRealIP, before + "," + Join(recorded, ',')) == Chosen(lib, xRealIP, recorded[0])
  {
    SplitJoin(recorded, ',');
    Selected(e, lib, xRealIP, Join(recorded, ','));
    PrefixInsensitive(e, lib, xRealIP, Join(recorded, ','), before);
  }

  // ---------------------------------------------------------------- exactly then

  function Commas(n: nat): (r: string) {
    if n == 0 then "" else "," + Commas(n - 1)
  }

  lemma {:induction false} CommasSplit(a: string, n: nat)
    requires Free(a, ',')
    decreases n
    ensures |Split(a + Commas(n), ',')| == n + 1 && Split(a + Commas(n), ',')[0] == a
  {
    SplitFree(a, ',');
    if n == 0 {
      assert a + Commas(0) == a;
    } else {
      assert a + Commas(n) == a + "," + Commas(n - 1);
      assert "" + Commas(n - 1) == Commas(n - 1);
      CommasSplit("", n - 1);
      SplitConcat(a, Commas(n - 1), ',');
    }
  }

  /** A prefix that brings a short header to the hop count is what decides. */
  lemma ShortHeader(e: Extractor, lib: Library, xRealIP: string, xff: string, a: string) returns (before: string)
    requires Trusting(e) && Sound(lib) && |Split(xff, ',')| < e.trustedProxyCount && Free(a, ',')
    ensures ClientIp(e, lib, xRealIP, before + "," + xff) == Chosen(lib, xRealIP, a)
  {
    hide ClientIp, Chosen, Split, Commas;
    var n := e.trustedProxyCount - |Split(xff, ',')| - 1;
    before := a + Commas(n);
    CommasSplit(a, n);
    SplitConcat(before, xff, ',');
    Selected(e, lib, xRealIP, before + "," + xff);
  }

  ghost predicate Insensitive(e: Extractor, lib: Library, xRealIP: string, xff: string) {
    forall before :: ClientIp(e, lib, xRealIP, before + "," + xff) == ClientIp(e, lib, xRealIP, xff)
  }

  /** The bound is exact: as soon as two addresses differ, text before a shorter header can decide. */
  lemma InsensitiveExactly(e: Extractor, lib: Library, xRealIP: string, xff: string, a: string, b: string)
    requires Trusting(e) && Sound(lib) && Free(a, ',') && Free(b, ',')
    requires Chosen(lib, xRealIP, a) != Chosen(lib, xRealIP, b)
    ensures Insensitive(e, lib, xRealIP, xff) <==> |Split(xff, ',')| >= e.trustedProxyCount
  {
    hide ClientIp, Chosen;
    if |Split(xff, ',')| >= e.trustedProxyCount {
      forall before ensures ClientIp(e, lib, xRealIP, before + "," + xff) == ClientIp(e, lib, xRealIP, xff) {
        PrefixInsensitive(e, lib, xRealIP, xff, before);
      }
    } else {
      var p := ShortHeader(e, lib, xRealIP, xff, a);
      var q := ShortHeader(e, lib, xRealIP, xff, b);
      assert ClientIp(e, lib, xRealIP, p + "," + xff) != ClientIp(e, lib, xRealIP, q + "," + xff);
    }
  }
}
