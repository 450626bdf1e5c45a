/**
  What the main loop does with one `<li>` of the route list: the strict,
  shape-checking extraction of the client name and plus code, the fallback
  to the item's single map link when that fails, and the decision whether
  the stop becomes a waypoint.

  The foreign code the loop consults is gathered in `Oracles`: lxml's
  `self::` tests, `urllib.parse` and the Open Location Code library.
 */
module Route {
  import opened Optional
  import opened PyStr
  import opened Dom
  import opened Matcher
  import opened Names
  import opened PlaceIds

  /** `olc.decode(code).latlng()`: left opaque. */
  datatype LatLng = LatLng(lat: real, lng: real)

  datatype Oracles = Oracles(
    selfCount: SelfCount,         // len(node.xpath('self::' + expr))
    urlPath: string -> string,    // unquote(urlparse(u).path)
    urlScheme: string -> string,  // urlparse(u).scheme
    unquote: string -> string,    // unquote(s)
    isValid: string -> bool,      // olc.isValid(code)
    isFull: string -> bool,       // olc.isFull(code)
    decode: string -> LatLng      // olc.decode(code).latlng()
  )

  // ---------------------------------------------------------------------
  // The page layout the strict extraction expects

  function Bound(expr: string, name: string): Slot { Slot(expr, Some(name), false) }

  /** `<li>`: a single `<div>`. */
  const ItemPattern: seq<Slot> := [Bound("div", "div1")]

  /** The stop's `<div>`: name/code block, address, portions, instructions,
      allergies, optional "not home" note, links block. */
  const BodyPattern: seq<Slot> := [
    Bound("div", "name_olc_div"),
    Bound("p", "addr_p"),
    Bound("div", "portions_div"),
    Bound("p", "insns_p"),
    Bound("p", "allergies_p"),
    Slot("p", Some("nothome_p"), true),
    Bound("div", "links_div")
  ]

  /** The name/code block: client name, then the textual plus code. */
  const NamePattern: seq<Slot> := [Bound("p", "fullname_p"), Bound("p", "olc_p")]

  /** The links block: map link, optional call link, empty spacer, button. */
  const LinksPattern: seq<Slot> := [
    Bound("a[contains(text(),'Google Maps')]", "maplink_a"),
    Slot("a[contains(text(),'Call')]", Some("tellink_a"), true),
    Slot("div[not(node())]", None, false),
    Slot("button", None, false)
  ]

  const NotHomeBoilerplate := "If no-one's home and you can't make contact: "

  // ---------------------------------------------------------------------
  // Outcomes of the strict extraction

  /** Why the strict extraction gave up on an item; each is an exception the
      loop's `except (ValueError, KeyError, TypeError)` catches. */
  datatype Problem =
    | Unmatched(level: string)         // match_tags gave None; subscripting it raises TypeError
    | BadPattern(level: string)        // match_tags raised ValueError
    | MissingBinding(key: string)      // KeyError
    | NoPortions(found: string)        // ValueError: no 'portion' in the portions block
    | CodeMismatch(text: string, fromUrl: Option<string>)  // ValueError
    | InvalidCode(code: string)        // ValueError: olc.isValid failed
    | NotTel(href: Option<string>)     // ValueError: call link is not a tel: URI

  /** A step of the strict extraction: a value, a caught exception, or the
      `IndexError` nothing catches, which ends the whole run. */
  datatype Attempt<+T> = Got(value: T) | Fail(why: Problem) | Crash
  {
    predicate IsFailure() { !Got? }

    function PropagateFailure<U>(): Attempt<U>
      requires !Got?
    {
      if Fail? then Fail(why) else Crash
    }

    function Extract(): T
      requires Got?
    {
      value
    }
  }

  /** A `match_tags` call of the strict extraction, seen from the loop. */
  function Level(r: Outcome, level: string): Attempt<map<string, Node>>
  {
    match r
    case Match(m) => Got(m)
    case NoMatch => Fail(Unmatched(level))
    case Error(ValueError) => Fail(BadPattern(level))
    case Error(IndexError) => Crash
  }

  /** `d[key]` on a dict `match_tags` returned. */
  function Get(m: map<string, Node>, key: string): Attempt<Node>
  {
    if key in m then Got(m[key]) else Fail(MissingBinding(key))
  }

  /** The "not home" note with its boilerplate lead-in removed. */
  function NotHomeNote(text: string): string
  {
    var t := Strip(text);
    Strip(if StartsWith(t, NotHomeBoilerplate) then t[|NotHomeBoilerplate|..] else t)
  }

  /** `place_id_from_google_maps_url(a.get('href'))`; an anchor without an
      `href` yields no identifier. */
  function PlaceIdFromHref(href: Option<string>, o: Oracles): Option<string>
  {
    if href.Some? then PlaceIdFromUrl(href.value, o.urlPath) else None
  }

  /** The call link's target is a telephone URI: `urlparse` finds the `tel`
      scheme, or finds no scheme while the raw text starts with `tel:`. */
  predicate IsTelTarget(href: Option<string>, o: Oracles)
  {
    && href.Some?
    && (o.urlScheme(href.value) == "tel"
        || (o.urlScheme(href.value) == "" && StartsWith(href.value, "tel:")))
  }

  /** The telephone number of a call link, with the fallback for the URIs
      `urlparse` fails to split. */
  function Telephone(href: Option<string>, o: Oracles): (r: Attempt<string>)
    ensures r.Got? <==> IsTelTarget(href, o)
    ensures !r.Crash?
  {
    if href.None? then Fail(NotTel(href))
    else if o.urlScheme(href.value) == "tel" then Got(o.urlPath(href.value))
    else if o.urlScheme(href.value) == "" && StartsWith(href.value, "tel:") then Got(o.unquote(href.value[4..]))
    else Fail(NotTel(href))
  }

  /** The fields the strict extraction gathers for one stop. */
  datatype Record = Record(
    fullname: string,
    shortName: Option<string>,
    code: string,
    address: string,
    portions: string,
    instructions: string,
    allergies: string,
    nothome: Option<string>,
    mapUrl: Option<string>,
    telephone: Option<string>)

  /** What a record the strict extraction keeps guarantees: its code is a
      valid plus code and is the one the map link carries, its waypoint name
      is the shortened client name. */
  predicate Accepted(rec: Record, o: Oracles)
  {
    && o.isValid(rec.code)
    && PlaceIdFromHref(rec.mapUrl, o) == Some(rec.code)
    && rec.shortName == FirstNameish(rec.fullname)
  }

  /** The three nested matches that lead to the client name and code: the
      item's single `<div>`, the stop's body, the name/code block. Gives the
      body's bindings and the two paragraphs of the name/code block. */
  function Frame(item: Node, o: Oracles): Attempt<(map<string, Node>, Node, Node)>
  {
    var top :- Level(MatchTags(ChildrenOf(item), ItemPattern, o.selfCount), "item");
    var div1 :- Get(top, "div1");
    var body :- Level(MatchTags(ChildrenOf(div1), BodyPattern, o.selfCount), "body");
    var nameDiv :- Get(body, "name_olc_div");
    var names :- Level(MatchTags(ChildrenOf(nameDiv), NamePattern, o.selfCount), "name");
    var fullnameP :- Get(names, "fullname_p");
    var olcP :- Get(names, "olc_p");
    Got((body, fullnameP, olcP))
  }

  /** The links block's match; having an optional slot, it never raises
      `IndexError`. */
  function Links(body: map<string, Node>, o: Oracles): (r: Attempt<map<string, Node>>)
    ensures !r.Crash?
  {
    var linksDiv :- Get(body, "links_div");
    OptionalLevelsNeverCrash(ChildrenOf(linksDiv), o);
    Level(MatchTags(ChildrenOf(linksDiv), LinksPattern, o.selfCount), "links")
  }

  /** The call link's telephone number, if the links block has a call link. */
  function CallNumber(links: map<string, Node>, o: Oracles): (r: Attempt<Option<string>>)
    ensures r.Got? <==> ("tellink_a" in links ==> IsTelTarget(HrefOf(links["tellink_a"]), o))
    ensures !r.Crash?
  {
    if "tellink_a" in links then
      var t :- Telephone(HrefOf(links["tellink_a"]), o);
      Got(Some(t))
    else Got(None)
  }

  /** The body of the `try` block, in the order the source runs it. */
  function StrictExtract(item: Node, o: Oracles): (r: Attempt<Record>)
    ensures r.Got? ==> Accepted(r.value, o)
  {
    var frame :- Frame(item, o);
    Content(frame.0, Strip(TextContent(frame.1)), Strip(TextContent(frame.2)), o)
  }

  /** The rest of the `try` block once the name and code paragraphs are
      found: the portions check, the links block, the code checks and the
      call link. */
  function Content(body: map<string, Node>, fullname: string, code: string, o: Oracles): (r: Attempt<Record>)
    ensures r.Got? ==> Accepted(r.value, o) && r.value.fullname == fullname && r.value.code == code
    ensures !r.Crash?
  {
    var addrP :- Get(body, "addr_p");
    var portionsDiv :- Get(body, "portions_div");
    var portionsText := TextContent(portionsDiv);
    if !Contains(portionsText, "portion") then Fail(NoPortions(portionsText))
    else
      var insnsP :- Get(body, "insns_p");
      var allergiesP :- Get(body, "allergies_p");
      var nothome := if "nothome_p" in body then Some(NotHomeNote(TextContent(body["nothome_p"]))) else None;
      var links :- Links(body, o);
      var mapA :- Get(links, "maplink_a");
      var fromUrl := PlaceIdFromHref(HrefOf(mapA), o);
      if fromUrl != Some(code) then Fail(CodeMismatch(code, fromUrl))
      else if !o.isValid(code) then Fail(InvalidCode(code))
      else
        var telephone :- CallNumber(links, o);
        Got(Record(
          fullname, FirstNameish(fullname), code,
          Strip(TextContent(addrP)), Strip(portionsText),
          Strip(TextContent(insnsP)), Strip(TextContent(allergiesP)),
          nothome, HrefOf(mapA), telephone))
  }

  // ---------------------------------------------------------------------
  // A reference reading: first the shape, then the content checks

  /** What the page layout alone yields for an item, before any content is
      checked. */
  datatype Fields = Fields(
    fullname: string,
    codeText: string,
    portionsText: string,
    mapHref: Option<string>,
    callHref: Option<Option<string>>)

  function Layout(item: Node, o: Oracles): Attempt<Fields>
  {
    var frame :- Frame(item, o);
    LayoutBody(frame.0, Strip(TextContent(frame.1)), Strip(TextContent(frame.2)), o)
  }

  function LayoutBody(body: map<string, Node>, fullname: string, code: string, o: Oracles): Attempt<Fields>
  {
    var _ :- Get(body, "addr_p");
    var portionsDiv :- Get(body, "portions_div");
    var _ :- Get(body, "insns_p");
    var _ :- Get(body, "allergies_p");
    var links :- Links(body, o);
    var mapA :- Get(links, "maplink_a");
    Got(Fields(
      fullname, code, TextContent(portionsDiv), HrefOf(mapA),
      if "tellink_a" in links then Some(HrefOf(links["tellink_a"])) else None))
  }

  /** The content checks of the strict extraction: the portions block
      mentions portions, the map URL carries the same code as the text, the
      code is a valid plus code, and a call link, if any, is a `tel:` URI. */
  predicate ChecksPass(f: Fields, o: Oracles)
  {
    && Contains(f.portionsText, "portion")
    && PlaceIdFromHref(f.mapHref, o) == Some(f.codeText)
    && o.isValid(f.codeText)
    && (f.callHref.Some? ==> IsTelTarget(f.callHref.value, o))
  }

  lemma ItemPatternNoOptional()
    ensures OptionalCount(ItemPattern) == 0
  {
    assert Mandatory(ItemPattern[1..]) == [];
  }

  lemma BodyPatternOneOptional()
    ensures OptionalCount(BodyPattern) == 1
  {
    var p := BodyPattern;
    assert Mandatory(p[6..]) == [p[6]];
    assert Mandatory(p[5..]) == [p[6]];
    assert Mandatory(p[4..]) == [p[4], p[6]];
    assert Mandatory(p[3..]) == [p[3], p[4], p[6]];
    assert Mandatory(p[2..]) == [p[2], p[3], p[4], p[6]];
    assert Mandatory(p[1..]) == [p[1], p[2], p[3], p[4], p[6]];
    assert |Mandatory(p)| == 6;
  }

  lemma LinksPatternOneOptional()
    ensures OptionalCount(LinksPattern) == 1
  {
    var p := LinksPattern;
    assert Mandatory(p[3..]) == [p[3]];
    assert Mandatory(p[2..]) == [p[2], p[3]];
    assert Mandatory(p[1..]) == [p[2], p[3]];
    assert |Mandatory(p)| == 3;
  }

  /** Neither match with an optional slot can raise `IndexError`. */
  lemma OptionalLevelsNeverCrash(children: seq<Node>, o: Oracles)
    ensures !Level(MatchTags(children, BodyPattern, o.selfCount), "body").Crash?
    ensures !Level(MatchTags(children, LinksPattern, o.selfCount), "links").Crash?
  {
    BodyPatternOneOptional();
    LinksPatternOneOptional();
    OneOptionalLengthRule(children, BodyPattern, o.selfCount);
    OneOptionalLengthRule(children, LinksPattern, o.selfCount);
  }

  lemma ContentIff(body: map<string, Node>, fullname: string, code: string, o: Oracles)
    ensures Content(body, fullname, code, o).Got?
            <==> LayoutBody(body, fullname, code, o).Got? && ChecksPass(LayoutBody(body, fullname, code, o).value, o)
    ensures !Content(body, fullname, code, o).Crash? && !LayoutBody(body, fullname, code, o).Crash?
    ensures Content(body, fullname, code, o).Got? ==>
              var rec := Content(body, fullname, code, o).value;
              rec.code == code && rec.fullname == fullname && rec.shortName == FirstNameish(fullname)
    ensures LayoutBody(body, fullname, code, o).Got? ==>
              var f := LayoutBody(body, fullname, code, o).value;
              f.codeText == code && f.fullname == fullname
  {
    var c := Content(body, fullname, code, o);
    var l := LayoutBody(body, fullname, code, o);
    var addr := Get(body, "addr_p");
    var portions := Get(body, "portions_div");
    var insns := Get(body, "insns_p");
    var allergies := Get(body, "allergies_p");
    var links := Links(body, o);
    if !addr.Got? || !portions.Got? {
      assert c.Fail? && l.Fail?;
    } else if !Contains(TextContent(portions.value), "portion") {
      assert c.Fail?;
      assert l.Got? ==> !ChecksPass(l.value, o);
    } else if !insns.Got? || !allergies.Got? || !links.Got? {
      assert c.Fail? && l.Fail?;
    } else {
      var mapA := Get(links.value, "maplink_a");
      if !mapA.Got? {
        assert c.Fail? && l.Fail?;
      } else {
        var call := CallNumber(links.value, o);
        assert l == Got(Fields(
          fullname, code, TextContent(portions.value), HrefOf(mapA.value),
          if "tellink_a" in links.value then Some(HrefOf(links.value["tellink_a"])) else None));
        var fromUrl := PlaceIdFromHref(HrefOf(mapA.value), o);
        if fromUrl != Some(code) || !o.isValid(code) || !call.Got? {
          assert c.Fail?;
        } else {
          assert c.Got?;
        }
      }
    }
  }

  /** The strict extraction and the layout reading both start from the same
      frame and fail the same way when it fails. */
  lemma FrameFirst(item: Node, o: Oracles)
    ensures Frame(item, o).Got? ==>
              var fr := Frame(item, o).value;
              && StrictExtract(item, o) == Content(fr.0, Strip(TextContent(fr.1)), Strip(TextContent(fr.2)), o)
              && Layout(item, o) == LayoutBody(fr.0, Strip(TextContent(fr.1)), Strip(TextContent(fr.2)), o)
    ensures Frame(item, o).Crash? ==> StrictExtract(item, o).Crash? && Layout(item, o).Crash?
    ensures Frame(item, o).Fail? ==> StrictExtract(item, o).Fail? && Layout(item, o).Fail?
  {
  }

  /** The strict record is kept exactly when the layout matches and every
      content check passes; the run-ending `IndexError` comes from the
      layout alone; and a kept record carries the layout's name and code,
      the name shortened by `firstnameish` (a blank name shortens to
      `None` without failing anything). */
  lemma StrictAcceptedIff(item: Node, o: Oracles)
    ensures StrictExtract(item, o).Got?
            <==> Layout(item, o).Got? && ChecksPass(Layout(item, o).value, o)
    ensures StrictExtract(item, o).Crash? <==> Layout(item, o).Crash?
    ensures StrictExtract(item, o).Got? ==>
              var f := Layout(item, o).value;
              var rec := StrictExtract(item, o).value;
              && rec.code == f.codeText
              && rec.fullname == f.fullname
              && rec.shortName == FirstNameish(f.fullname)
  {
    FrameFirst(item, o);
    var frame := Frame(item, o);
    if frame.Got? {
      var body, fullname, code := frame.value.0, Strip(TextContent(frame.value.1)), Strip(TextContent(frame.value.2));
      ContentIff(body, fullname, code, o);
      var c, l := Content(body, fullname, code, o), LayoutBody(body, fullname, code, o);
      assert StrictExtract(item, o) == c && Layout(item, o) == l;
    }
  }

  /** An item with neither a child element nor non-blank text (`<li></li>`,
      or whitespace and comments only) gives the first `match_tags` no child
      for its single slot: the `IndexError` escapes the loop's `except`. */
  lemma ChildlessItemCrashes(item: Node, o: Oracles)
    requires SignificantChildren(ChildrenOf(item)) == []
    ensures StrictExtract(item, o).Crash?
  {
    ItemPatternNoOptional();
    NoOptionalShortfall(ChildrenOf(item), ItemPattern, o.selfCount);
    FrameFirst(item, o);
  }
}
