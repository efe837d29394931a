/**
 * How `loadSVGContent` (index.js:171-192) decides where the SVG text comes
 * from, and which client `loadRemoteImage` (index.js:194-213) fetches a
 * URL with. The decoding, the file system and the network are parameters.
 */
module Loader {
  import opened Wrappers
  import opened JsString

  /** The marker of an inline base64 document. */
  const DataUriPrefix: string := "data:image/svg+xml;base64,"

  datatype Scheme = Http | Https

  /** What the `svg` argument is taken to be. */
  datatype Source =
    | DataUri(payload: string)
    | Markup(text: string)
    | Remote(url: string, scheme: Scheme)
    | LocalFile(path: string)

  /** The outcome handed to the callback: the SVG text, or an error. */
  datatype Outcome = Loaded(content: string) | Failed(error: string)

  /** `url.indexOf('https://') >= 0 ? https : http`. */
  function SchemeOf(url: string): (s: Scheme)
    ensures s == Https <==> Contains(url, "https://")
  {
    if Contains(url, "https://") then Https else Http
  }

  /**
   * The dispatch of `loadSVGContent`: the tests run in this order and the
   * first that holds wins; the base64 payload is everything after the first
   * `|DataUriPrefix|` characters of the argument, wherever the prefix occurs.
   */
  function Classify(svg: string): (r: Source)
    ensures r.DataUri? <==> Contains(svg, DataUriPrefix)
    ensures r.DataUri? ==> r.payload == Substring(svg, |DataUriPrefix|, |svg|)
    ensures r.Markup? <==> !Contains(svg, DataUriPrefix) && Contains(svg, "<svg")
    ensures r.Markup? ==> r.text == svg
    ensures r.Remote? <==>
              !Contains(svg, DataUriPrefix) && !Contains(svg, "<svg")
              && (Contains(svg, "http://") || Contains(svg, "https://"))
    ensures r.Remote? ==> r.url == svg && (r.scheme == Https <==> Contains(svg, "https://"))
    ensures r.LocalFile? ==> r.path == svg
  {
    if Contains(svg, DataUriPrefix) then DataUri(Substring(svg, |DataUriPrefix|, |svg|))
    else if Contains(svg, "<svg") then Markup(svg)
    else if Contains(svg, "http://") || Contains(svg, "https://") then Remote(svg, SchemeOf(svg))
    else LocalFile(svg)
  }

  /**
   * The content handed to the callback. `atob` decodes the payload,
   * `readFile` reads a path, `fetch` performs the GET with the chosen
   * client; each already includes the UTF-8 decoding of what it received.
   */
  function Load(svg: string, atob: string -> string, readFile: string -> Outcome,
                fetch: (Scheme, string) -> Outcome): (r: Outcome)
    ensures Classify(svg).Markup? ==> r == Loaded(svg)
    ensures Classify(svg).DataUri? ==> r == Loaded(atob(Classify(svg).payload))
    ensures Classify(svg).Remote? ==> r == fetch(Classify(svg).scheme, svg)
    ensures Classify(svg).LocalFile? ==> r == readFile(svg)
  {
    match Classify(svg)
    case DataUri(p) => Loaded(atob(p))
    case Markup(t) => Loaded(t)
    case Remote(u, s) => fetch(s, u)
    case LocalFile(p) => readFile(p)
  }

  /** A document that starts with the prefix has the rest of the text as its payload. */
  lemma DataUriPayload(body: string)
    ensures Classify(DataUriPrefix + body) == DataUri(body)
  {
    var svg := DataUriPrefix + body;
    assert OccursAt(svg, DataUriPrefix, 0);
    ContainsIff(svg, DataUriPrefix);
    assert svg[|DataUriPrefix|..] == body;
  }

  /**
   * With text before the prefix the payload still starts at offset
   * `|DataUriPrefix|`, so it keeps the tail of the prefix and the decoded
   * text is not the body's.
   */
  lemma DataUriPayloadOffset(pre: string, body: string)
    ensures var svg := pre + DataUriPrefix + body;
            Classify(svg) == DataUri(svg[|DataUriPrefix|..])
  {
    var svg := pre + DataUriPrefix + body;
    assert OccursAt(svg, DataUriPrefix, |pre|) by {
      assert svg[|pre|..|pre| + |DataUriPrefix|] == DataUriPrefix;
    }
    ContainsIff(svg, DataUriPrefix);
  }

  /** Markup is passed on as it is, even when it also mentions a URL. */
  lemma MarkupBeforeUrl(svg: string, atob: string -> string, readFile: string -> Outcome,
                        fetch: (Scheme, string) -> Outcome)
    requires Contains(svg, "<svg") && !Contains(svg, DataUriPrefix)
    ensures Load(svg, atob, readFile, fetch) == Loaded(svg)
  {
  }

  /** A URL that mentions `https://` anywhere is fetched over HTTPS, even one that starts with `http://`. */
  lemma HttpsAnywhere(pre: string, post: string)
    ensures SchemeOf(pre + "https://" + post) == Https
  {
    var url := pre + "https://" + post;
    assert url[|pre|..|pre| + 8] == "https://";
    assert OccursAt(url, "https://", |pre|);
    ContainsIff(url, "https://");
  }
}
