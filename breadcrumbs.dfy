/**
 * The breadcrumb trail shown at the top of each page: the pathname is cut at
 * '/', empty pieces are dropped, and the trail is the home crumb followed by
 * the configured crumb of the first piece, if there is one. A pathname with
 * no pieces shows no trail at all.
 */
module Breadcrumbs {

  import opened Wrappers
  import opened Text

  datatype Crumb = Crumb(title: string, path: string, emoji: string)

  /** The home crumb, the table's entry for the empty segment. */
  const Home := Crumb("Powpdr", "/", "\U{1F6BD}")

  /** The fixed table of crumbs, keyed by first path segment ("" is home). */
  const RouteConfig: map<string, Crumb> := map[
    "" := Home,
    "auth" := Crumb("Auth", "/auth", "\U{1F510}"),
    "chat" := Crumb("Poop-Time Chat", "/chat", "\U{1F4AC}"),
    "analyzer" := Crumb("Poop Analyzer", "/analyzer", "\U{1F52C}"),
    "tracker" := Crumb("Throne Tracker", "/tracker", "\U{1F4CA}")
  ]

  /** `filter(Boolean)` on strings: drops the empty pieces, keeping the others in order. */
  function NonEmpty(pieces: seq<string>): (r: seq<string>)
    ensures forall i :: 0 <= i < |r| ==> r[i] != "" && r[i] in pieces
  {
    if pieces == [] then []
    else (if pieces[0] != "" then [pieces[0]] else []) + NonEmpty(pieces[1..])
  }

  /** `pathname.split("/").filter(Boolean)`: the non-empty runs of text between slashes. */
  function Segments(pathname: string): (r: seq<string>)
    ensures forall i :: 0 <= i < |r| ==> r[i] != "" && '/' !in r[i]
  {
    SplitPiecesFree(pathname, '/');
    NonEmpty(Split(pathname, '/'))
  }

  /** The crumbs rendered for `pathname`, or `None` where the component renders nothing. */
  function Trail(pathname: string): (r: Option<seq<Crumb>>)
    ensures r.None? <==> Segments(pathname) == []
  {
    var segments := Segments(pathname);
    if segments == [] then None
    else if segments[0] in RouteConfig then Some([Home, RouteConfig[segments[0]]])
    else Some([Home])
  }

  /** Leading and repeated slashes add no segments. */
  lemma SlashIgnored(pathname: string)
    ensures Segments("/" + pathname) == Segments(pathname)
  {
    var s := "/" + pathname;
    assert s[1..] == pathname;
  }

  /** A segment is the text up to the next slash; what follows it comes after it. */
  lemma SegmentThenRest(segment: string, rest: string)
    requires segment != "" && '/' !in segment
    ensures Segments(segment + "/" + rest) == [segment] + Segments(rest)
  {
    SplitAtFirst(segment, rest, '/');
    assert segment + "/" + rest == segment + ['/'] + rest;
  }

  /**
   * A pathname with segments always gets the home crumb first; a second
   * crumb appears exactly when the first segment is a configured route, and
   * it is that route's crumb.
   */
  lemma TrailShape(pathname: string)
    requires Segments(pathname) != []
    ensures var t := Trail(pathname).value; var first := Segments(pathname)[0];
      && 1 <= |t| <= 2
      && t[0] == Home
      && (|t| == 2 <==> first in RouteConfig)
      && (|t| == 2 ==> t[1] == RouteConfig[first])
      && (|t| == 2 ==> first in {"auth", "chat", "analyzer", "tracker"})
  {
  }

  /** Only the first segment matters: two pathnames that share it share the trail. */
  lemma OnlyFirstSegmentMatters(p: string, q: string)
    requires Segments(p) != [] && Segments(q) != []
    requires Segments(p)[0] == Segments(q)[0]
    ensures Trail(p) == Trail(q)
  {
  }

  /** A rendered crumb: its key, whether a separator precedes it, and whether it is a link. */
  datatype Item = Item(key: string, crumb: Crumb, separatorBefore: bool, isLink: bool)

  /** The `map` over the trail: a separator before every crumb but the first, a link for every crumb but the last. */
  function Render(trail: seq<Crumb>): (r: seq<Item>)
    ensures |r| == |trail| && forall i :: 0 <= i < |r| ==> r[i].crumb == trail[i] && r[i].key == trail[i].path
    ensures |r| > 0 ==> !r[|r| - 1].isLink && !r[0].separatorBefore
    ensures forall i :: 0 <= i < |r| - 1 ==> r[i].isLink
    ensures forall i :: 0 < i < |r| ==> r[i].separatorBefore
  {
    seq(|trail|, i requires 0 <= i < |trail| => Item(trail[i].path, trail[i], i > 0, i != |trail| - 1))
  }

  /** The rendered items of a trail have distinct keys, as React's list rendering needs. */
  lemma RenderKeysDistinct(pathname: string)
    requires Trail(pathname).Some?
    ensures var items := Render(Trail(pathname).value);
      forall i, j :: 0 <= i < j < |items| ==> items[i].key != items[j].key
  {
    TrailShape(pathname);
  }

  // ---------------------------------------------------------------------------
  // The lookup as written: `routeConfig[segment]` on a plain object
  // ---------------------------------------------------------------------------

  /** The names every plain JavaScript object inherits from `Object.prototype`; each is a truthy value. */
  const PrototypeNames: set<string> := {
    "constructor", "toString", "toLocaleString", "valueOf", "hasOwnProperty",
    "isPrototypeOf", "propertyIsEnumerable", "__proto__", "__defineGetter__",
    "__defineSetter__", "__lookupGetter__", "__lookupSetter__"
  }

  /** What `routeConfig[segment]` yields: a configured crumb, an inherited member, or `undefined`. */
  datatype Lookup = Configured(crumb: Crumb) | Inherited(name: string) | Undefined

  function LookupAsWritten(segment: string): (r: Lookup)
    ensures r.Undefined? <==> segment !in RouteConfig && segment !in PrototypeNames
  {
    if segment in RouteConfig then Configured(RouteConfig[segment])
    else if segment in PrototypeNames then Inherited(segment)
    else Undefined
  }

  /** The trail as the component builds it: every truthy lookup result is pushed. */
  function TrailAsWritten(pathname: string): (r: Option<seq<Lookup>>)
    ensures r.None? <==> Segments(pathname) == []
  {
    var segments := Segments(pathname);
    if segments == [] then None
    else
      var found := LookupAsWritten(segments[0]);
      if !found.Undefined? then Some([Configured(Home), found]) else Some([Configured(Home)])
  }

  /**
   * On "/toString" the component pushes `Object.prototype.toString` as a
   * second crumb, one with no title (label), emoji or path; the own-key lookup that
   * `Trail` uses shows only the home crumb.
   */
  lemma PrototypeNameMakesCrumb()
    ensures Segments("/toString") == ["toString"]
    ensures TrailAsWritten("/toString") == Some([Configured(Home), Inherited("toString")])
    ensures Trail("/toString") == Some([Home])
  {
    SegmentsOfName("toString");
    assert "toString" !in RouteConfig;
    assert "toString" in PrototypeNames;
    assert LookupAsWritten("toString") == Inherited("toString");
  }

  /** A single segment after the root slash. */
  lemma SegmentsOfName(name: string)
    requires name != "" && '/' !in name
    ensures Segments("/" + name) == [name]
  {
    SlashIgnored(name);
    SplitWithout(name, '/');
    assert [name][1..] == [];
    assert NonEmpty([name]) == [name] + NonEmpty([]);
  }

  /** Off the inherited names, the written lookup and the own-key lookup build the same trail. */
  lemma AsWrittenAgrees(pathname: string)
    requires Segments(pathname) != [] ==> Segments(pathname)[0] !in PrototypeNames
    ensures TrailAsWritten(pathname).None? <==> Trail(pathname).None?
    ensures TrailAsWritten(pathname).Some? ==>
      |TrailAsWritten(pathname).value| == |Trail(pathname).value| &&
      forall i :: 0 <= i < |Trail(pathname).value| ==> TrailAsWritten(pathname).value[i] == Configured(Trail(pathname).value[i])
  {
  }
}
