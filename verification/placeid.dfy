/**
  `place_id_from_google_maps_url`: the place identifier of a
  `/maps/place/<id>` map URL. Parsing the URL and percent-decoding its path
  is an oracle (`urlPath`, standing for `unquote(urlparse(url).path)`);
  the model covers what happens to the decoded path.
 */
module PlaceIds {
  import opened Optional
  import opened PyStr

  const PlacePrefix := "/maps/place/"

  /** Index of the first newline of `s`, or `|s|` if none. */
  function FirstNewline(s: string): (k: nat)
    ensures k <= |s|
    ensures forall i :: 0 <= i < k ==> s[i] != '\n'
    ensures k < |s| ==> s[k] == '\n'
  {
    if |s| == 0 || s[0] == '\n' then 0 else 1 + FirstNewline(s[1..])
  }

  /** The group `(.*)$` captures from `s`: `.` matches anything but a
      newline, and `$` matches at the end or just before a final newline. */
  function RestOfLine(s: string): (r: Option<string>)
  {
    var k := FirstNewline(s);
    if k == |s| || k == |s| - 1 then Some(s[..k]) else None
  }

  /** `re.match('/maps/place/(.*)$', path.rstrip())`, group 1. */
  function PlaceIdFromPath(decoded: string): (r: Option<string>)
    ensures r.Some? ==> StartsWith(RStrip(decoded), PlacePrefix)
  {
    var path := RStrip(decoded);
    if StartsWith(path, PlacePrefix) then RestOfLine(path[|PlacePrefix|..]) else None
  }

  /** `place_id_from_google_maps_url(url)`: an identifier exactly when the
      decoded, right-stripped path starts with the place prefix and the rest
      is on one line; the identifier is then that rest. */
  function PlaceIdFromUrl(url: string, urlPath: string -> string): (r: Option<string>)
    ensures var path := RStrip(urlPath(url));
            r.Some? <==> StartsWith(path, PlacePrefix) && '\n' !in path[|PlacePrefix|..]
    ensures r.Some? ==> RStrip(urlPath(url)) == PlacePrefix + r.value && '\n' !in r.value
  {
    var decoded := urlPath(url);
    var path := RStrip(decoded);
    var r := PlaceIdFromPath(decoded);
    if r.Some? then
      PlaceIdIff(decoded, r.value);
      assert path[|PlacePrefix|..] == r.value;
      r
    else if StartsWith(path, PlacePrefix) then
      var rest := path[|PlacePrefix|..];
      assert path == PlacePrefix + rest;
      PlaceIdIff(decoded, rest);
      r
    else r
  }

  /** The identifier is exactly what follows the prefix in the right-stripped
      path, provided it holds no newline; a path without the prefix, or
      whose remainder spans lines, gives `None`. */
  lemma PlaceIdIff(decoded: string, id: string)
    ensures PlaceIdFromPath(decoded) == Some(id)
            <==> RStrip(decoded) == PlacePrefix + id && '\n' !in id
  {
    var path := RStrip(decoded);
    if StartsWith(path, PlacePrefix) {
      var rest := path[|PlacePrefix|..];
      assert path == PlacePrefix + rest;
      var k := FirstNewline(rest);
      if rest != [] {
        assert rest[|rest| - 1] == path[|path| - 1];
        assert rest[|rest| - 1] != '\n' by {
          assert !IsSpace(path[|path| - 1]);
        }
      }
      if PlaceIdFromPath(decoded) == Some(id) {
        assert k == |rest|;
        assert rest[..k] == rest;
        assert forall i :: 0 <= i < |id| ==> id[i] != '\n';
      }
      if path == PlacePrefix + id && '\n' !in id {
        assert id == rest;
        assert forall i :: 0 <= i < |rest| ==> rest[i] != '\n';
        assert k == |rest|;
        assert rest[..k] == rest;
      }
    } else {
      assert (PlacePrefix + id)[..|PlacePrefix|] == PlacePrefix;
    }
  }

  /** A path that does not start with the prefix (once right-stripped) never
      yields an identifier. */
  lemma NoPrefixNoId(decoded: string)
    requires !StartsWith(RStrip(decoded), PlacePrefix)
    ensures PlaceIdFromPath(decoded) == None
  {
  }

  /** Building a path from an identifier and trailing whitespace (the
      trailing `%20` seen in practice) and extracting it again gives the
      identifier back, for any identifier on one line that does not itself
      end in whitespace. */
  lemma PlaceIdRoundTrip(id: string, trailer: string)
    requires '\n' !in id
    requires id == [] || !IsSpace(id[|id| - 1])
    requires AllSpace(trailer)
    ensures PlaceIdFromPath(PlacePrefix + id + trailer) == Some(id)
  {
    var p := PlacePrefix + id;
    assert p[|p| - 1] != ' ' && !IsSpace(p[|p| - 1]);
    AllSpaceLStrip(trailer);
    RStripTrailingSpace(p, trailer);
    PlaceIdIff(PlacePrefix + id + trailer, id);
  }
}
