/** Websites: a URL stored without its scheme plus a flag saying whether
    the scheme is HTTPS, and the full URL rebuilt from the two. */
module Websites {
  import opened Php
  import opened ContactDetails

  const Http := "http://"
  const Https := "https://"

  /** `clean($url)`: trim, then drop every `http://`, then every `https://`. */
  function Clean(u: string): (r: string)
    ensures |r| <= |u|
    ensures (forall i :: 0 <= i < |u| ==> IsSpace(u[i])) ==> r == []
  {
    RemoveAll(RemoveAll(Trim(u), Http), Https)
  }

  /** `getUrl()`: the scheme the flag names, then the stored URL cleaned once more. */
  function FullUrl(stored: string, useHttps: bool): string {
    (if useHttps then Https else Http) + Clean(stored)
  }

  /** A full URL starts with `https://` exactly when it was built with the
      flag set, whatever the stored text: reloading restores the flag. */
  lemma FullUrlRestoresFlag(stored: string, useHttps: bool)
    ensures StartsWith(FullUrl(stored, useHttps), Https) == useHttps
  {
    SchemeDecides(Clean(stored));
  }

  lemma SchemeDecides(rest: string)
    ensures StartsWith(Https + rest, Https)
    ensures !StartsWith(Http + rest, Https)
  {
    assert (Https + rest)[..|Https|] == Https;
    var r := Http + rest;
    if |r| >= |Https| {
      assert r[..|Https|][4] == Http[4] != Https[4];
    }
  }

  /** A stored URL that cleaning leaves as it is. */
  predicate Canonical(w: string) {
    Clean(w) == w
  }

  /** A canonical URL is trimmed and holds neither scheme. */
  lemma CanonicalParts(w: string)
    requires Canonical(w)
    ensures Trimmed(w) && RemoveAll(w, Http) == w && RemoveAll(w, Https) == w
  {
    var a := Trim(w);
    var b := RemoveAll(a, Http);
    assert |RemoveAll(b, Https)| <= |b| <= |a| <= |w|;
  }

  /** A scheme followed by a trimmed URL is trimmed. */
  lemma SchemeTrimmed(scheme: string, w: string)
    requires scheme == Http || scheme == Https
    requires Trimmed(w)
    ensures Trimmed(scheme + w)
  {
    var s := scheme + w;
    assert s[0] == 'h';
    assert w != [] ==> s[|s| - 1] == w[|w| - 1];
    assert w == [] ==> s[|s| - 1] == '/';
  }

  /** A trimmed URL is only stripped of its schemes. */
  lemma CleanTrimmed(u: string)
    requires Trimmed(u)
    ensures Clean(u) == RemoveAll(RemoveAll(u, Http), Https)
  {
    TrimKeeps(u);
  }

  /** Dropping the schemes from `http://` and a URL holding neither leaves the URL. */
  lemma StripHttp(w: string)
    requires RemoveAll(w, Http) == w && RemoveAll(w, Https) == w
    ensures RemoveAll(RemoveAll(Http + w, Http), Https) == w
  {
    var s := Http + w;
    assert s[..|Http|] == Http && s[|Http|..] == w;
  }

  /** Dropping the schemes from `https://` and a URL holding neither leaves
      the URL: no `http://` starts inside `https://`. */
  lemma StripHttps(w: string)
    requires RemoveAll(w, Http) == w && RemoveAll(w, Https) == w
    ensures RemoveAll(RemoveAll(Https + w, Http), Https) == w
  {
    var t := Https + w;
    var tail := "ttps://";
    assert t[..|Http|] != Http by {
      assert t[..|Http|][4] == 's' && Http[4] == ':';
    }
    assert t[1..] == tail + w;
    RemoveAllKeepsPrefix(tail, w, Http);
    assert RemoveAll(t, Http) == [t[0]] + (tail + w);
    assert [t[0]] + (tail + w) == t;
    assert t[..|Https|] == Https && t[|Https|..] == w;
  }

  /** Cleaning recovers a canonical URL from its `http://` form. */
  lemma CleanHttp(w: string)
    requires Canonical(w)
    ensures Clean(Http + w) == w
  {
    CanonicalParts(w);
    SchemeTrimmed(Http, w);
    TrimKeeps(Http + w);
    StripHttp(w);
  }

  /** Cleaning recovers a canonical URL from its `https://` form. */
  lemma CleanHttps(w: string)
    requires Canonical(w)
    ensures Clean(Https + w) == w
  {
    CanonicalParts(w);
    SchemeTrimmed(Https, w);
    TrimKeeps(Https + w);
    StripHttps(w);
  }

  /** A canonical URL survives the round trip through the full URL, the
      scheme included. */
  lemma RoundTrip(w: string, useHttps: bool)
    requires Canonical(w)
    ensures Clean(FullUrl(w, useHttps)) == w
    ensures StartsWith(FullUrl(w, useHttps), Https) == useHttps
    ensures FullUrl(FullUrl(w, useHttps), useHttps) == FullUrl(w, useHttps)
  {
    FullUrlRestoresFlag(w, useHttps);
    if useHttps {
      CleanHttps(w);
    } else {
      CleanHttp(w);
    }
  }

  /** Removing one occurrence can join two halves of another:
      `clean` is not idempotent. */
  lemma CleanNotIdempotent()
    ensures Clean("hthttp://tp://x") == "http://x"
    ensures Clean(Clean("hthttp://tp://x")) == "x"
  {
    JoinedHttp("hthttp://tp://x");
    CleanTrimmed("hthttp://tp://x");
    CleanCanonicalExample();
  }

  lemma JoinedHttp(u: string)
    requires u == "hthttp://tp://x"
    ensures RemoveAll(RemoveAll(u, Http), Https) == "http://x"
  {
    JoinedHttpFirst(u);
    HttpKeptByHttps("http://x");
  }

  lemma JoinedHttpFirst(u: string)
    requires u == "hthttp://tp://x"
    ensures RemoveAll(u, Http) == "http://x"
  {
    assert u[..|Http|] != Http by {
      assert u[..|Http|][2] == 'h' && Http[2] == 't';
    }
    RemoveAllSkip(u, Http);
    var v := "thttp://tp://x";
    assert u[1..] == v;
    JoinedHttpTail(v);
  }

  lemma JoinedHttpTail(v: string)
    requires v == "thttp://tp://x"
    ensures RemoveAll(v, Http) == "ttp://x"
  {
    var rest := v[1..];
    assert v[..|Http|] != Http by {
      assert v[..|Http|][0] == 't' && Http[0] == 'h';
    }
    RemoveAllSkip(v, Http);
    DropsLeadingHttp(rest);
  }

  lemma DropsLeadingHttp(rest: string)
    requires rest == Http + "tp://x"
    ensures RemoveAll(rest, Http) == "tp://x"
  {
    assert rest[..|Http|] == Http && rest[|Http|..] == "tp://x";
    RemoveAllDrop(rest, Http);
    assert RemoveAll("tp://x", Http) == "tp://x";
  }

  lemma HttpKeptByHttps(h: string)
    requires h == "http://x"
    ensures RemoveAll(h, Https) == h
  {
    assert h[..|Https|] != Https by {
      assert h[..|Https|][4] == ':' && Https[4] == 's';
    }
    assert h[1..] == "ttp://x";
    RemoveAllAbsent("ttp://x", Https);
  }

  lemma CleanCanonicalExample()
    ensures Clean("http://x") == "x"
  {
    var w := "x";
    assert RemoveAll(w, Http) == w && RemoveAll(w, Https) == w;
    StripHttp(w);
    assert Http + w == "http://x";
    CleanTrimmed("http://x");
  }

  /** Trimming happens before the scheme is dropped, so the space behind a
      scheme stays in front of the stored URL. */
  lemma CleanCanLeaveLeadingSpace()
    ensures Clean("http:// x") == " x"
  {
    var u := "http:// x";
    assert u[..|Http|] == Http && u[|Http|..] == " x";
    assert RemoveAll(" x", Http) == " x" && RemoveAll(" x", Https) == " x";
    assert RemoveAll(RemoveAll(u, Http), Https) == " x";
    CleanTrimmed(u);
  }

  class Website {
    /** The URL without its scheme. */
    var url: string
    var useHttps: bool
    var envelope: Envelope

    /** `Website::fromUrl($url)`: the flag is read from the raw argument,
      before trimming. */
    constructor FromUrl(u: string)
      ensures url == Clean(u) && useHttps == StartsWith(u, Https) && envelope == NewEnvelope
    {
      url := Clean(u);
      useHttps := StartsWith(u, Https);
      envelope := NewEnvelope;
    }

    /** A website as hydrated from a stored row, before
      `populateContactDetailProperties` runs: the stored text and the
      default flag. */
    constructor Hydrate(stored: string, envelope: Envelope)
      ensures url == stored && !useHttps && this.envelope == envelope
    {
      url := stored;
      useHttps := false;
      this.envelope := envelope;
    }

    /** `populateContactDetailProperties()`: a stored URL with the https
      scheme sets the flag (it never clears it), then the stored URL is
      cleaned. */
    method PopulateContactDetailProperties()
      modifies this
      ensures useHttps == (old(useHttps) || StartsWith(old(url), Https))
      ensures url == Clean(old(url)) && envelope == old(envelope)
    {
      var stored := url;
      var flag := useHttps;
      if StartsWith(stored, Https) {
        flag := true;
      }
      var cleaned := Clean(stored);
      useHttps, url := flag, cleaned;
    }

    /** `getUrl()`, which `__toString()`, the `url` property and the
      persisted `url` attribute all return. */
    function GetUrl(): string
      reads this
    {
      FullUrl(url, useHttps)
    }

    function ToString(): string
      reads this
    {
      GetUrl()
    }

    /** `getOwnAttributes()`: what is persisted besides the envelope. */
    function OwnAttributes(): map<string, Value>
      reads this
    {
      map["url" := Str(GetUrl())]
    }

    /** `__get($name)`. */
    function Read(name: string): (v: Value)
      reads this
      ensures name == "url" ==> v == Str((if useHttps then Https else Http) + Clean(url))
      ensures name == "urlWithoutProtocol" ==> v == Str(url)
      ensures name == "useHttps" ==> v == Bool(useHttps)
      ensures name != "url" && name != "urlWithoutProtocol" && name != "useHttps" ==>
        v == EnvelopeRead(envelope, name)
    {
      ReadState(State(), name)
    }

    /** The `url` property, `__toString()` and the persisted `url` attribute
      are the same full URL, and that text reloads to the same flag (and to
      the same stored URL when it is canonical). */
    lemma PersistedUrl()
      ensures Read("url") == Str(ToString()) && OwnAttributes()["url"] == Read("url")
      ensures StartsWith(OwnAttributes()["url"].s, Https) == useHttps
      ensures Canonical(url) ==> Clean(OwnAttributes()["url"].s) == url
    {
      FullUrlRestoresFlag(url, useHttps);
      if Canonical(url) {
        RoundTrip(url, useHttps);
      }
    }

    function State(): WebsiteState
      reads this
    {
      WebsiteState(url, useHttps, envelope)
    }

    /** `__set($name, $value)`. */
    method Set(name: string, v: Value)
      requires name != "urlWithoutProtocol"
      modifies this
      ensures State() == Write(old(State()), name, v)
    {
      if name == "url" {
        url := Clean(Text(v));
        useHttps := StartsWith(url, Https);
      } else if name == "useHttps" {
        useHttps := !Empty(v);
      } else {
        envelope := EnvelopeWrite(envelope, name, v);
      }
    }
  }

  datatype WebsiteState = WebsiteState(url: string, useHttps: bool, envelope: Envelope)

  /** A write by name: a new `url` is cleaned and the flag recomputed from
      the cleaned text; `useHttps` sets the flag alone; other names go to
      the envelope. */
  function Write(st: WebsiteState, name: string, v: Value): (r: WebsiteState)
    requires name != "urlWithoutProtocol"
    ensures name == "url" ==> r.url == Clean(Text(v)) && r.envelope == st.envelope
    ensures name == "url" ==> r.useHttps == StartsWith(Clean(Text(v)), Https)
    ensures name == "useHttps" ==> r.useHttps == !Empty(v) && r.envelope == st.envelope
    ensures name != "url" ==> r.url == st.url
    ensures name != "url" && name != "useHttps" ==> r.useHttps == st.useHttps
    ensures name != "url" && name != "useHttps" ==> r.envelope == EnvelopeWrite(st.envelope, name, v)
  {
    if name == "url" then
      var cleaned := Clean(Text(v));
      st.(url := cleaned, useHttps := StartsWith(cleaned, Https))
    else if name == "useHttps" then st.(useHttps := !Empty(v))
    else st.(envelope := EnvelopeWrite(st.envelope, name, v))
  }

  /** `__get($name)` on the state of a website. */
  function ReadState(st: WebsiteState, name: string): Value {
    if name == "url" then Str(FullUrl(st.url, st.useHttps))
    else if name == "urlWithoutProtocol" then Str(st.url)
    else if name == "useHttps" then Bool(st.useHttps)
    else EnvelopeRead(st.envelope, name)
  }

  /** The flag written through `useHttps` reads back as its boolean cast. */
  lemma UseHttpsReadBack(st: WebsiteState, v: Value)
    ensures ReadState(Write(st, "useHttps", v), "useHttps") == Bool(!Empty(v))
    ensures ReadState(Write(st, "useHttps", v), "urlWithoutProtocol") == Str(st.url)
  {
  }

  /** A canonical URL written through `url` with either scheme reads back
      without its scheme, and the full URL it reads back as uses `http://`. */
  lemma UrlReadBack(st: WebsiteState, w: string, scheme: string)
    requires Canonical(w) && (scheme == Http || scheme == Https)
    ensures ReadState(Write(st, "url", Str(scheme + w)), "urlWithoutProtocol") == Str(w)
    ensures ReadState(Write(st, "url", Str(scheme + w)), "url") == Str(Http + w)
  {
    UrlWriteClearsFlag(st, w, scheme);
  }

  /** Reloading a website from what it persisted: hydrate the stored full
      URL, then run `populateContactDetailProperties`. The flag always comes
      back; the stored URL comes back when it is canonical. */
  method Reload(w: Website) returns (r: Website)
    ensures fresh(r) && r.envelope == w.envelope
    ensures r.useHttps == w.useHttps
    ensures r.url == Clean(w.GetUrl())
    ensures Canonical(w.url) ==> r.url == w.url && r.GetUrl() == w.GetUrl()
  {
    w.PersistedUrl();
    var stored := w.OwnAttributes()["url"].s;
    r := new Website.Hydrate(stored, w.envelope);
    r.PopulateContactDetailProperties();
  }

  /** Writing `useHttps` changes the flag and nothing else, so the full URL
      switches scheme around the same stored URL. */
  lemma UseHttpsWrite(st: WebsiteState, v: Value)
    ensures var r := Write(st, "useHttps", v);
      r.url == st.url && r.envelope == st.envelope && r.useHttps == !Empty(v) &&
      FullUrl(r.url, r.useHttps) == (if Empty(v) then Http else Https) + Clean(st.url)
  {
  }

  /** Reloading what a website persisted gives back its stored URL, flag and
      full URL, when the stored URL is canonical. */
  lemma ReloadRoundTrip(w: string, useHttps: bool)
    requires Canonical(w)
    ensures var stored := FullUrl(w, useHttps);
      Clean(stored) == w && StartsWith(stored, Https) == useHttps &&
      FullUrl(Clean(stored), StartsWith(stored, Https)) == stored
  {
    RoundTrip(w, useHttps);
  }

  /** `fromUrl` on a full URL with a canonical rest keeps the rest and the
      scheme, so its full URL is the argument itself. */
  lemma FromUrlRoundTrip(w: string, useHttps: bool)
    requires Canonical(w)
    ensures var u := (if useHttps then Https else Http) + w;
      Clean(u) == w && StartsWith(u, Https) == useHttps && FullUrl(Clean(u), StartsWith(u, Https)) == u
  {
    RoundTrip(w, useHttps);
    assert FullUrl(w, useHttps) == (if useHttps then Https else Http) + w;
  }

  /** Writing `url` tests the cleaned text, which has lost its scheme: a
      canonical URL written with either scheme clears the flag. */
  lemma UrlWriteClearsFlag(st: WebsiteState, w: string, scheme: string)
    requires Canonical(w) && (scheme == Http || scheme == Https)
    ensures Write(st, "url", Str(scheme + w)).url == w
    ensures !Write(st, "url", Str(scheme + w)).useHttps
  {
    if scheme == Http {
      CleanHttp(w);
    } else {
      CleanHttps(w);
    }
    assert StartsWith(w, Https) ==> OccursAt(w, Https, 0);
  }

  /** ... but a URL in which dropping one `https://` joins another keeps it,
      and the flag is set. */
  lemma UrlWriteCanSetFlag(st: WebsiteState)
    ensures Write(st, "url", Str("hhttps://ttps://x")).url == "https://x"
    ensures Write(st, "url", Str("hhttps://ttps://x")).useHttps
  {
    var u, c := "hhttps://ttps://x", "https://x";
    CleanJoinsHttps(u, c);
    UrlWriteText(st, u, c);
  }

  /** Cleaning can join the halves of a new `https://`. */
  lemma CleanJoinsHttps(u: string, c: string)
    requires u == "hhttps://ttps://x" && c == "https://x"
    ensures Clean(u) == c && StartsWith(c, Https)
  {
    JoinedHttps(u);
    CleanTrimmed(u);
    assert c[..|Https|] == Https;
  }

  /** A `url` write of a string whose cleaned form is known. */
  lemma UrlWriteText(st: WebsiteState, u: string, c: string)
    requires Clean(u) == c
    ensures Write(st, "url", Str(u)) == st.(url := c, useHttps := StartsWith(c, Https))
  {
  }

  lemma JoinedHttps(u: string)
    requires u == "hhttps://ttps://x"
    ensures RemoveAll(RemoveAll(u, Http), Https) == "https://x"
  {
    NoHttpIn(u);
    var v := Https + "ttps://x";
    HttpsSkipFirst(u, v);
    JoinedHttpsTail(v);
  }

  lemma HttpsSkipFirst(u: string, v: string)
    requires u == "hhttps://ttps://x" && v == Https + "ttps://x"
    ensures RemoveAll(u, Https) == "h" + RemoveAll(v, Https)
  {
    assert u[..|Https|] != Https by {
      assert u[..|Https|][1] == 'h' && Https[1] == 't';
    }
    RemoveAllSkip(u, Https);
    assert u[1..] == v;
  }

  lemma JoinedHttpsTail(v: string)
    requires v == Https + "ttps://x"
    ensures RemoveAll(v, Https) == "ttps://x"
  {
    assert v[..|Https|] == Https && v[|Https|..] == "ttps://x";
    RemoveAllDrop(v, Https);
    RemoveAllAbsent("ttps://x", Https);
  }

  lemma NoHttpIn(u: string)
    requires u == "hhttps://ttps://x"
    ensures RemoveAll(u, Http) == u
  {
    forall i | 0 <= i < |u| ensures !OccursAt(u, Http, i) {
      if i + |Http| <= |u| {
        assert u[i..i + |Http|][0] == u[i] && u[i..i + |Http|][4] == u[i + 4];
      }
    }
    RemoveAllAbsent(u, Http);
  }
}
