/**
 * `get_email_body` in app.py: the best-effort text of a Gmail message payload,
 * a tree of MIME parts in the sense of section 5.1 of RFC 2046. A plain-text
 * part wins; an HTML leaf gives a prefixed, truncated preview; inside a
 * container the first usable plain text (or nested genuine text) is returned
 * at once, and otherwise the HTML that the loop kept aside.
 *
 * `EmailBody`, `Scan` and `StepPart` state the walk as functions; the method
 * `GetEmailBody` is the loop of the source, proved equal to `EmailBody`, and
 * the lemmas state what the walk returns in terms of the children.
 */
module MimeBody {
  import opened Wrappers
  import opened Base64Url

  /** The `body` of a part: its inline base64url `data`, possibly absent. */
  datatype Body = Body(data: Option<string>)

  /** A node of the payload tree: `mimeType`, an optional `body`, optional `parts`. */
  datatype Part = Part(mimeType: string, body: Option<Body>, parts: Children)

  /** The `parts` key of a node: absent, or an ordered (possibly empty) list. */
  datatype Children = NoParts | Parts(children: seq<Part>)

  const PlainType: string := "text/plain"
  const HtmlType: string := "text/html"

  /** What an HTML preview starts with. */
  const HtmlPrefix: string := "HTML Content (simplified): "
  /** What a nested result is tested against; note: no trailing space. */
  const HtmlMarker: string := "HTML Content (simplified):"
  const PreviewLength: nat := 500
  const Ellipsis: string := "..."

  predicate StartsWith(s: string, prefix: string) {
    |prefix| <= |s| && s[..|prefix|] == prefix
  }

  predicate IsTextType(mimeType: string) {
    mimeType == PlainType || mimeType == HtmlType
  }

  /** The inline data of a part, `""` when the body or its data is absent. */
  function InlineData(p: Part): string {
    if p.body.Some? && p.body.value.data.Some? then p.body.value.data.value else ""
  }

  /**
   * The loop of `get_email_body` reads `part['body']` of every text/plain and
   * text/html child, and a missing one raises; so every such child, at every
   * depth the walk reaches, carries a body.
   */
  predicate WellFormed(p: Part)
    decreases p
  {
    match p.parts
    case NoParts => true
    case Parts(children) =>
      forall i | 0 <= i < |children| ::
        (IsTextType(children[i].mimeType) ==> children[i].body.Some?) && WellFormed(children[i])
  }

  /** The first `n` characters of `s`, all of it when shorter (`s[:n]`). */
  function Truncate(s: string, n: nat): (r: string)
    ensures |r| <= n && |r| <= |s|
    ensures |r| == n || |r| == |s|
    ensures r == s[..|r|]
  {
    if |s| <= n then s else s[..n]
  }

  /** The preview returned for an HTML leaf. */
  function HtmlPreview(html: string): (r: string)
    ensures |HtmlPrefix| + |Ellipsis| <= |r| <= |HtmlPrefix| + PreviewLength + |Ellipsis|
    ensures StartsWith(r, HtmlPrefix) && StartsWith(r, HtmlMarker)
    ensures r[|HtmlPrefix|..|r| - |Ellipsis|] == Truncate(html, PreviewLength)
    ensures r[|r| - |Ellipsis|..] == Ellipsis
  {
    var r := HtmlPrefix + Truncate(html, PreviewLength) + Ellipsis;
    assert r[..|HtmlMarker|] == HtmlMarker;
    r
  }

  // ---------------------------------------------------------------------------
  // The walk as functions.

  /** What one pass of the loop over the children does. */
  datatype Step = Found(text: string) | Continue(fallback: string)

  /** A child's decoded text/plain data, `""` for any other type. */
  function PlainOf(c: Part, utf8: Utf8Decoder): string {
    if c.mimeType == PlainType then DecodeSafe(InlineData(c), utf8) else ""
  }

  /** A child's decoded text/html data, `""` for any other type. */
  function HtmlOf(c: Part, utf8: Utf8Decoder): string {
    if c.mimeType == HtmlType then DecodeSafe(InlineData(c), utf8) else ""
  }

  /** The body of a child that has parts of its own, `""` for one that has none. */
  function NestedOf(c: Part, utf8: Utf8Decoder): string
    requires WellFormed(c)
    decreases c, 4
  {
    if c.parts.Parts? then EmailBody(c, utf8) else ""
  }

  /** A nested result counts as real text unless it carries the HTML marker. */
  predicate IsGenuine(text: string) {
    text != "" && !StartsWith(text, HtmlMarker)
  }

  /** One pass of the loop: return at once, or go on with the new fallback. */
  function StepPart(c: Part, fallback: string, utf8: Utf8Decoder): (r: Step)
    requires WellFormed(c)
    ensures r.Found? ==> r.text != ""
    ensures fallback != "" && r.Continue? ==> r.fallback != ""
    ensures PlainOf(c, utf8) != "" ==> r == Found(PlainOf(c, utf8))
    decreases c, 5
  {
    if PlainOf(c, utf8) != "" then Found(PlainOf(c, utf8))
    else
      var kept := if HtmlOf(c, utf8) != "" then HtmlOf(c, utf8) else fallback;
      var nested := NestedOf(c, utf8);
      if nested == "" then Continue(kept)
      else if IsGenuine(nested) then Found(nested)
      else if kept == "" then Continue(nested)
      else Continue(kept)
  }

  /** The loop over the children of `p` from index `i` on, with `fallback` kept so far. */
  function Scan(p: Part, i: nat, fallback: string, utf8: Utf8Decoder): (r: string)
    requires WellFormed(p) && p.parts.Parts? && i <= |p.parts.children|
    ensures fallback != "" ==> r != ""
    decreases p, 2, |p.parts.children| - i
  {
    match p.parts
    case Parts(children) =>
      if i == |children| then fallback
      else
        match StepPart(children[i], fallback, utf8)
        case Found(text) => text
        case Continue(kept) => Scan(p, i + 1, kept, utf8)
  }

  /** `get_email_body`. */
  function EmailBody(p: Part, utf8: Utf8Decoder): (r: string)
    requires WellFormed(p)
    ensures InlineData(p) != "" && p.mimeType == HtmlType ==> StartsWith(r, HtmlMarker)
    decreases p, 3
  {
    var data := InlineData(p);
    if data != "" && p.mimeType == PlainType then DecodeSafe(data, utf8)
    else if data != "" && p.mimeType == HtmlType then HtmlPreview(DecodeSafe(data, utf8))
    else if p.parts.Parts? then Scan(p, 0, "", utf8)
    else ""
  }

  // ---------------------------------------------------------------------------
  // The walk as the source runs it.

  method GetEmailBody(msgPayload: Part, utf8: Utf8Decoder) returns (body: string)
    requires WellFormed(msgPayload)
    ensures body == EmailBody(msgPayload, utf8)
    decreases msgPayload
  {
    var bodyPlainText := "";  // never assigned a non-empty value in app.py
    var htmlContent := "";
    var data := InlineData(msgPayload);
    if data != "" {
      if msgPayload.mimeType == PlainType {
        return DecodeSafe(data, utf8);
      } else if msgPayload.mimeType == HtmlType {
        htmlContent := DecodeSafe(data, utf8);
        return HtmlPreview(htmlContent);
      }
    }
    if msgPayload.parts.Parts? {
      var parts := msgPayload.parts.children;
      for i := 0 to |parts|
        invariant Scan(msgPayload, i, htmlContent, utf8) == EmailBody(msgPayload, utf8)
      {
        var part := parts[i];
        ghost var before := htmlContent;
        assert WellFormed(part);
        if part.mimeType == PlainType {
          var decodedPart := DecodeSafe(InlineData(part), utf8);
          if decodedPart != "" {
            return decodedPart;
          }
        } else if part.mimeType == HtmlType {
          var decodedHtmlPart := DecodeSafe(InlineData(part), utf8);
          if decodedHtmlPart != "" {
            htmlContent := decodedHtmlPart;
          }
        }
        if part.parts.Parts? {
          var nestedBody := GetEmailBody(part, utf8);
          if nestedBody != "" {
            if !StartsWith(nestedBody, HtmlMarker) {
              assert StepPart(part, before, utf8) == Found(nestedBody);
              return nestedBody;
            } else if htmlContent == "" {
              htmlContent := nestedBody;
            }
          }
        }
        assert StepPart(part, before, utf8) == Continue(htmlContent);
      }
    }
    body := if bodyPlainText != "" then bodyPlainText else if htmlContent != "" then htmlContent else "";
  }

  // ---------------------------------------------------------------------------
  // What the walk returns.

  /** A part whose inline data, if any, is neither plain text nor HTML, and that has `parts`. */
  predicate IsContainer(p: Part) {
    p.parts.Parts? && !(InlineData(p) != "" && IsTextType(p.mimeType))
  }

  /** A child that makes the loop return at once. */
  predicate ShortCircuits(c: Part, utf8: Utf8Decoder)
    requires WellFormed(c)
  {
    PlainOf(c, utf8) != "" || IsGenuine(NestedOf(c, utf8))
  }

  /** What such a child makes the loop return. */
  function ShortCircuitText(c: Part, utf8: Utf8Decoder): string
    requires WellFormed(c)
  {
    if PlainOf(c, utf8) != "" then PlainOf(c, utf8) else NestedOf(c, utf8)
  }

  /** A text/plain part with inline data returns its decoded data; its `parts` are never read. */
  lemma PlainInlineWins(p: Part, q: Part, utf8: Utf8Decoder)
    requires WellFormed(p) && WellFormed(q)
    requires p.mimeType == PlainType && InlineData(p) != ""
    requires q.mimeType == p.mimeType && q.body == p.body
    ensures EmailBody(p, utf8) == DecodeSafe(InlineData(p), utf8)
    ensures EmailBody(q, utf8) == EmailBody(p, utf8)
  {
  }

  /**
   * A text/html part with inline data returns the preview: the prefix, at most
   * 500 decoded characters and `...`, so at most 27 + 500 + 3 characters.
   */
  lemma HtmlInlinePreview(p: Part, q: Part, utf8: Utf8Decoder)
    requires WellFormed(p) && WellFormed(q)
    requires p.mimeType == HtmlType && InlineData(p) != ""
    requires q.mimeType == p.mimeType && q.body == p.body
    ensures EmailBody(p, utf8) == HtmlPreview(DecodeSafe(InlineData(p), utf8))
    ensures |EmailBody(p, utf8)| <= 27 + 500 + 3
    ensures StartsWith(EmailBody(p, utf8), HtmlPrefix)
    ensures EmailBody(q, utf8) == EmailBody(p, utf8)
  {
  }

  lemma {:induction false} ScanShortCircuit(p: Part, k: nat, i: nat, fallback: string, utf8: Utf8Decoder)
    requires WellFormed(p) && p.parts.Parts? && k <= i < |p.parts.children|
    requires ShortCircuits(p.parts.children[i], utf8)
    requires forall j | k <= j < i :: !ShortCircuits(p.parts.children[j], utf8)
    ensures Scan(p, k, fallback, utf8) == ShortCircuitText(p.parts.children[i], utf8)
    decreases i - k
  {
    if k < i {
      var kept := StepPart(p.parts.children[k], fallback, utf8).fallback;
      ScanShortCircuit(p, k + 1, i, kept, utf8);
    }
  }

  /**
   * In a container, the first child that is text/plain with non-empty decoded
   * data, or whose nested body is genuine text, decides the result, whatever
   * HTML siblings come before it.
   */
  lemma FirstShortCircuitWins(p: Part, i: nat, utf8: Utf8Decoder)
    requires WellFormed(p) && IsContainer(p) && i < |p.parts.children|
    requires ShortCircuits(p.parts.children[i], utf8)
    requires forall j | 0 <= j < i :: !ShortCircuits(p.parts.children[j], utf8)
    ensures EmailBody(p, utf8) == ShortCircuitText(p.parts.children[i], utf8)
  {
    ScanShortCircuit(p, 0, i, "", utf8);
  }

  lemma {:induction false} ScanKeeps(p: Part, k: nat, fallback: string, utf8: Utf8Decoder)
    requires WellFormed(p) && p.parts.Parts? && k <= |p.parts.children|
    requires forall j | k <= j < |p.parts.children| ::
      !ShortCircuits(p.parts.children[j], utf8) && HtmlOf(p.parts.children[j], utf8) == ""
    requires fallback != "" || forall j | k <= j < |p.parts.children| :: NestedOf(p.parts.children[j], utf8) == ""
    ensures Scan(p, k, fallback, utf8) == fallback
    decreases |p.parts.children| - k
  {
    if k < |p.parts.children| {
      var kept := StepPart(p.parts.children[k], fallback, utf8).fallback;
      assert kept == fallback;
      ScanKeeps(p, k + 1, kept, utf8);
    }
  }

  lemma {:induction false} ScanLastHtml(p: Part, k: nat, i: nat, fallback: string, utf8: Utf8Decoder)
    requires WellFormed(p) && p.parts.Parts? && k <= i < |p.parts.children|
    requires forall j | k <= j < |p.parts.children| :: !ShortCircuits(p.parts.children[j], utf8)
    requires HtmlOf(p.parts.children[i], utf8) != ""
    requires forall j | i < j < |p.parts.children| :: HtmlOf(p.parts.children[j], utf8) == ""
    ensures Scan(p, k, fallback, utf8) == HtmlOf(p.parts.children[i], utf8)
    decreases i - k
  {
    var kept := StepPart(p.parts.children[k], fallback, utf8).fallback;
    if k < i {
      ScanLastHtml(p, k + 1, i, kept, utf8);
    } else {
      assert kept == HtmlOf(p.parts.children[i], utf8);
      ScanKeeps(p, k + 1, kept, utf8);
    }
  }

  /**
   * With no such child, a text/html child with non-empty decoded data makes the
   * result its raw decoded data, untruncated and without the prefix; a later
   * one overwrites an earlier one, so the last one counts.
   */
  lemma LastHtmlFallback(p: Part, i: nat, utf8: Utf8Decoder)
    requires WellFormed(p) && IsContainer(p) && i < |p.parts.children|
    requires forall j | 0 <= j < |p.parts.children| :: !ShortCircuits(p.parts.children[j], utf8)
    requires HtmlOf(p.parts.children[i], utf8) != ""
    requires forall j | i < j < |p.parts.children| :: HtmlOf(p.parts.children[j], utf8) == ""
    ensures EmailBody(p, utf8) == HtmlOf(p.parts.children[i], utf8)
  {
    ScanLastHtml(p, 0, i, "", utf8);
  }

  lemma {:induction false} ScanFirstNested(p: Part, k: nat, i: nat, utf8: Utf8Decoder)
    requires WellFormed(p) && p.parts.Parts? && k <= i < |p.parts.children|
    requires forall j | k <= j < |p.parts.children| ::
      !ShortCircuits(p.parts.children[j], utf8) && HtmlOf(p.parts.children[j], utf8) == ""
    requires NestedOf(p.parts.children[i], utf8) != ""
    requires forall j | k <= j < i :: NestedOf(p.parts.children[j], utf8) == ""
    ensures Scan(p, k, "", utf8) == NestedOf(p.parts.children[i], utf8)
    decreases i - k
  {
    var kept := StepPart(p.parts.children[k], "", utf8).fallback;
    if k < i {
      assert kept == "";
      ScanFirstNested(p, k + 1, i, utf8);
    } else {
      assert kept == NestedOf(p.parts.children[i], utf8);
      ScanKeeps(p, k + 1, kept, utf8);
    }
  }

  /**
   * With no such child and no HTML child, a nested body that carries the HTML
   * marker is adopted: the first one, since later ones find the fallback set.
   */
  lemma FirstNestedFallback(p: Part, i: nat, utf8: Utf8Decoder)
    requires WellFormed(p) && IsContainer(p) && i < |p.parts.children|
    requires forall j | 0 <= j < |p.parts.children| ::
      !ShortCircuits(p.parts.children[j], utf8) && HtmlOf(p.parts.children[j], utf8) == ""
    requires NestedOf(p.parts.children[i], utf8) != ""
    requires forall j | 0 <= j < i :: NestedOf(p.parts.children[j], utf8) == ""
    ensures EmailBody(p, utf8) == NestedOf(p.parts.children[i], utf8)
    ensures StartsWith(EmailBody(p, utf8), HtmlMarker)
  {
    ScanFirstNested(p, 0, i, utf8);
  }

  /** With none of these, the result is empty. */
  lemma NoUsableChild(p: Part, utf8: Utf8Decoder)
    requires WellFormed(p) && IsContainer(p)
    requires forall j | 0 <= j < |p.parts.children| ::
      !ShortCircuits(p.parts.children[j], utf8) && HtmlOf(p.parts.children[j], utf8) == ""
      && NestedOf(p.parts.children[j], utf8) == ""
    ensures EmailBody(p, utf8) == ""
  {
    ScanKeeps(p, 0, "", utf8);
  }

  /** A part with neither usable inline data nor `parts` has an empty body. */
  lemma EmptyLeaf(p: Part, utf8: Utf8Decoder)
    requires WellFormed(p) && p.parts.NoParts?
    requires InlineData(p) == "" || !IsTextType(p.mimeType)
    ensures EmailBody(p, utf8) == ""
  {
  }

  // ---------------------------------------------------------------------------
  // Typical payload shapes.

  /** A part without `parts` whose text is what the loop decodes. */
  predicate IsLeaf(c: Part, mimeType: string) {
    c.mimeType == mimeType && c.body.Some? && c.parts.NoParts?
  }

  /** A multipart node: a type other than the two text types, with these children. */
  predicate IsMultipart(c: Part, children: seq<Part>) {
    !IsTextType(c.mimeType) && c.parts == Parts(children)
  }

  /** multipart/alternative: the plain-text child wins over its HTML sibling in either order. */
  lemma PlainBeatsHtmlSibling(mimeType: string, body: Option<Body>, html: Part, plain: Part, utf8: Utf8Decoder)
    requires IsLeaf(html, HtmlType) && IsLeaf(plain, PlainType) && PlainOf(plain, utf8) != ""
    requires !IsTextType(mimeType)
    ensures EmailBody(Part(mimeType, body, Parts([html, plain])), utf8) == PlainOf(plain, utf8)
    ensures EmailBody(Part(mimeType, body, Parts([plain, html])), utf8) == PlainOf(plain, utf8)
  {
    FirstShortCircuitWins(Part(mimeType, body, Parts([html, plain])), 1, utf8);
    FirstShortCircuitWins(Part(mimeType, body, Parts([plain, html])), 0, utf8);
  }

  /**
   * A container whose only child is an HTML leaf gives the raw decoded HTML,
   * not the prefixed preview that an HTML leaf at the top gives.
   */
  lemma HtmlOnlyChildIsRaw(mimeType: string, body: Option<Body>, html: Part, utf8: Utf8Decoder)
    requires IsLeaf(html, HtmlType) && HtmlOf(html, utf8) != ""
    requires !IsTextType(mimeType)
    ensures EmailBody(Part(mimeType, body, Parts([html])), utf8) == DecodeSafe(InlineData(html), utf8)
  {
    LastHtmlFallback(Part(mimeType, body, Parts([html])), 0, utf8);
  }

  /** Plain text nested two containers deep is still found. */
  lemma NestedPlainTwoDeep(outer: Part, inner: Part, plain: Part, utf8: Utf8Decoder)
    requires IsLeaf(plain, PlainType) && IsGenuine(PlainOf(plain, utf8))
    requires IsMultipart(inner, [plain]) && IsMultipart(outer, [inner])
    ensures WellFormed(outer)
    ensures EmailBody(outer, utf8) == PlainOf(plain, utf8)
  {
    assert WellFormed(inner);
    FirstShortCircuitWins(inner, 0, utf8);
    FirstShortCircuitWins(outer, 0, utf8);
  }

  /**
   * The marker test misreads plain text that happens to start with
   * "HTML Content (simplified):": nested in a container, that text loses to
   * an HTML sibling that comes after it.
   */
  lemma MarkerPlainTextLosesToHtml(outer: Part, inner: Part, plain: Part, html: Part, utf8: Utf8Decoder)
    requires IsLeaf(plain, PlainType) && PlainOf(plain, utf8) != ""
    requires StartsWith(PlainOf(plain, utf8), HtmlMarker)
    requires IsLeaf(html, HtmlType) && HtmlOf(html, utf8) != ""
    requires IsMultipart(inner, [plain]) && IsMultipart(outer, [inner, html])
    ensures WellFormed(outer)
    ensures EmailBody(outer, utf8) == HtmlOf(html, utf8)
  {
    assert WellFormed(inner);
    FirstShortCircuitWins(inner, 0, utf8);
    LastHtmlFallback(outer, 1, utf8);
  }
}
