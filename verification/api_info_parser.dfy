/** `ApiInfoParser` (Syncthing/Http/ApiInfoParser.cs): reads the scope lists,
    the ETag and the `Link` relations out of a response's headers. The two
    regular expressions, `rel="(next|prev|first|last)"` and `<(.+)>`, both
    case-insensitive, are written out as direct searches. */
module ResponseHeaders {
  import opened Wrappers
  import opened Text
  import opened Http
  import opened Metadata

  const AcceptedOauthScopesHeader: string := "X-Accepted-OAuth-Scopes"
  const OauthScopesHeader: string := "X-OAuth-Scopes"
  const EtagHeader: string := "ETag"
  const LinkHeader: string := "Link"

  /** The alternatives of the rel pattern, in the order the engine tries them. */
  const RelNames: seq<string> := ["next", "prev", "first", "last"]

  /* ---------- header lookup ---------- */

  /** A `KeyValuePair<string, string>`; `DefaultPair` is `default(KeyValuePair)`. */
  datatype KeyValuePair = KeyValuePair(key: Option<string>, value: Option<string>)

  const DefaultPair: KeyValuePair := KeyValuePair(None, None)

  /** The first header at or after `from` whose name equals `key` ignoring case. */
  function FirstHeader(headers: seq<Header>, key: string, from: nat): (r: nat)
    requires from <= |headers|
    ensures from <= r <= |headers|
    ensures r < |headers| ==> EqualsIgnoreCase(headers[r].0, key)
    ensures forall j :: from <= j < r ==> !EqualsIgnoreCase(headers[j].0, key)
    decreases |headers| - from
  {
    if from == |headers| || EqualsIgnoreCase(headers[from].0, key) then from
    else FirstHeader(headers, key, from + 1)
  }

  /** `LookupHeader(headers, key)`: `FirstOrDefault` over the enumeration order. */
  function LookupHeader(headers: seq<Header>, key: string): (r: KeyValuePair)
    ensures r == DefaultPair <==> forall j :: 0 <= j < |headers| ==> !EqualsIgnoreCase(headers[j].0, key)
    ensures r != DefaultPair ==> r.key.Some? && r.value.Some? && EqualsIgnoreCase(r.key.value, key)
  {
    var i := FirstHeader(headers, key, 0);
    if i < |headers| then KeyValuePair(Some(headers[i].0), Some(headers[i].1)) else DefaultPair
  }

  /** The header found is the first one, in enumeration order, whose name matches. */
  lemma LookupFindsFirstMatch(headers: seq<Header>, key: string, j: nat)
    requires j < |headers| && EqualsIgnoreCase(headers[j].0, key)
    requires forall i :: 0 <= i < j ==> !EqualsIgnoreCase(headers[i].0, key)
    ensures LookupHeader(headers, key) == KeyValuePair(Some(headers[j].0), Some(headers[j].1))
  {
    var i := FirstHeader(headers, key, 0);
    assert i == j;
  }

  /** `Exists(kvp)`: the pair differs from the default one. */
  function Exists(kvp: KeyValuePair): (b: bool)
    ensures b <==> kvp.key.Some? || kvp.value.Some?
  {
    kvp != DefaultPair
  }

  /** A looked-up pair exists exactly when some header has the name, ignoring case. */
  lemma ExistsIffNamed(headers: seq<Header>, key: string)
    ensures Exists(LookupHeader(headers, key)) <==> exists j | 0 <= j < |headers| :: EqualsIgnoreCase(headers[j].0, key)
  {
  }

  /* ---------- scope lists ---------- */

  /** `Split(',', RemoveEmptyEntries)` followed by `Trim` on every piece:
      pieces are dropped when exactly empty, before trimming. */
  function ScopeList(value: string): (r: seq<string>)
    ensures |r| <= |Split(value, ',')|
  {
    TrimAll(RemoveEmpty(Split(value, ',')))
  }

  /** The scope list of comma-joined pieces is those pieces, empty ones
      dropped, each trimmed, in their order. */
  lemma ScopeListOfJoined(pieces: seq<string>)
    requires |pieces| >= 1
    requires forall k :: 0 <= k < |pieces| ==> ',' !in pieces[k]
    ensures ScopeList(Join(pieces, ',')) == TrimAll(RemoveEmpty(pieces))
  {
    SplitJoin(pieces, ',');
  }

  /** A white-space-only piece survives the empty-entry filter and is kept as "". */
  lemma BlankScopeKeptAsEmpty(value: string)
    requires value == "a, ,b"
    ensures ScopeList(value) == ["a", "", "b"]
  {
    JoinOfThree();
    ScopesOfBlankMiddle("a", " ", "b");
  }

  /** Three pieces, the middle one blank: the blank one is kept, trimmed to "". */
  lemma ScopesOfBlankMiddle(x: string, y: string, z: string)
    requires |x| == 1 && !IsWhiteSpace(x[0]) && x[0] != ','
    requires |z| == 1 && !IsWhiteSpace(z[0]) && z[0] != ','
    requires y != [] && forall k :: 0 <= k < |y| ==> IsWhiteSpace(y[k]) && y[k] != ','
    ensures ScopeList(Join([x, y, z], ',')) == [x, "", z]
  {
    var pieces := [x, y, z];
    forall k | 0 <= k < |pieces|
      ensures pieces[k] != "" && ',' !in pieces[k]
    {
      if k == 1 {
        assert ',' !in y;
      }
    }
    ScopeListWithoutEmptyPieces(pieces);
    TrimOfBlankMiddle(x, y, z);
  }

  /** Pieces that are neither empty nor hold a comma are each trimmed, none dropped. */
  lemma ScopeListWithoutEmptyPieces(pieces: seq<string>)
    requires |pieces| >= 1
    requires forall k :: 0 <= k < |pieces| ==> pieces[k] != "" && ',' !in pieces[k]
    ensures ScopeList(Join(pieces, ',')) == TrimAll(pieces)
  {
    NothingEmptyIsRemoved(pieces);
    ScopeListOfJoined(pieces);
  }

  lemma TrimOfBlankMiddle(x: string, y: string, z: string)
    requires |x| == 1 && !IsWhiteSpace(x[0])
    requires |z| == 1 && !IsWhiteSpace(z[0])
    requires forall k :: 0 <= k < |y| ==> IsWhiteSpace(y[k])
    ensures TrimAll([x, y, z]) == [x, "", z]
  {
    var trimmed := TrimAll([x, y, z]);
    TrimOfNonBlankLetter(x);
    TrimOfBlank(y);
    TrimOfNonBlankLetter(z);
    assert trimmed == [x, "", z];
  }

  lemma JoinOfThree()
    ensures Join(["a", " ", "b"], ',') == "a, ,b"
  {
    var pieces := ["a", " ", "b"];
    assert pieces[1..][1..] == ["b"];
    assert Join(pieces[1..], ',') == " ,b";
  }

  /** The filter keeps a list without empty pieces as it is. */
  lemma {:induction false} NothingEmptyIsRemoved(pieces: seq<string>)
    requires forall k :: 0 <= k < |pieces| ==> pieces[k] != ""
    ensures RemoveEmpty(pieces) == pieces
  {
    if pieces != [] {
      NothingEmptyIsRemoved(pieces[1..]);
    }
  }

  /** A single non-white-space character trims to itself. */
  lemma TrimOfNonBlankLetter(s: string)
    requires |s| == 1 && !IsWhiteSpace(s[0])
    ensures Trim(s) == s
  {
    var r := Trim(s);
    assert r != "";
    var i :| 0 <= i <= |s| - |r| && OccursAt(s, i, r);
  }

  /** A white-space-only string trims to "". */
  lemma TrimOfBlank(s: string)
    requires forall k :: 0 <= k < |s| ==> IsWhiteSpace(s[k])
    ensures Trim(s) == ""
  {
  }

  /* ---------- the rel pattern ---------- */

  /** The value is one of the rel names, ignoring case. */
  predicate IsRelName(v: string) {
    exists n :: n in RelNames && EqualsIgnoreCase(v, n)
  }

  /** A rel name `name` (ignoring case) followed by `"` starts at `j`. */
  predicate NameClosedAt(s: string, j: nat, name: string) {
    j + |name| < |s| && EqualsIgnoreCase(s[j..j + |name|], name) && s[j + |name|] == '"'
  }

  /** The group the rel pattern captures when its match starts at `i`:
      `rel="` ignoring case, then the first alternative that is followed by `"`,
      in the original case of `s`. */
  function RelAt(s: string, i: nat): (r: Option<string>)
    ensures r.Some? ==> IsRelName(r.value)
  {
    if !(i + 5 <= |s| && EqualsIgnoreCase(s[i..i + 5], "rel=\"")) then None
    else RelNameFrom(s, i + 5, RelNames)
  }

  function RelNameFrom(s: string, j: nat, names: seq<string>): (r: Option<string>)
    requires forall k :: 0 <= k < |names| ==> names[k] in RelNames
    ensures r.Some? ==> IsRelName(r.value)
    ensures r.None? <==> forall k :: 0 <= k < |names| ==> !NameClosedAt(s, j, names[k])
  {
    if names == [] then None
    else if NameClosedAt(s, j, names[0]) then Some(s[j..j + |names[0]|])
    else RelNameFrom(s, j, names[1..])
  }

  /** The leftmost position at or after `from` where the rel pattern matches,
      or `|s| + 1` when it matches nowhere. */
  function RelIndex(s: string, from: nat): (r: nat)
    requires from <= |s| + 1
    ensures from <= r <= |s| + 1
    ensures r <= |s| ==> RelAt(s, r).Some?
    ensures forall j :: from <= j < r ==> RelAt(s, j).None?
    decreases |s| + 1 - from
  {
    if from == |s| + 1 || RelAt(s, from).Some? then from else RelIndex(s, from + 1)
  }

  /** `LinkRelRegex.Match(link).Groups[1].Value`, or `None` for no match. */
  function RelMatch(s: string): (r: Option<string>)
    ensures r.Some? ==> IsRelName(r.value)
    ensures r.None? <==> forall j :: 0 <= j <= |s| ==> RelAt(s, j).None?
  {
    var i := RelIndex(s, 0);
    if i <= |s| then RelAt(s, i) else None
  }

  /* ---------- the URI pattern ---------- */

  /** Where the greedy `<(.+)>` match starting at `i` ends: `.` excludes
      '\n', so the last '>' at least two places after `i` and before the next
      line break; `i + 1` when there is none. */
  function UriCloseAt(s: string, i: nat): (k: int)
    requires i < |s|
    ensures i + 1 <= k <= |s|
    ensures k >= i + 2 ==> k < |s| && s[k] == '>' && '\n' !in s[i + 1..k]
  {
    var lineEnd := IndexOf(s, '\n', i + 1);
    if lineEnd < i + 2 then i + 1
    else
      LastIndexOf(s, '>', i + 2, lineEnd)
  }

  /** The URI pattern matches starting at `i`. */
  predicate UriMatchesAt(s: string, i: nat)
    requires i < |s|
  {
    s[i] == '<' && UriCloseAt(s, i) >= i + 2
  }

  /** The leftmost position at or after `from` where the URI pattern
      matches, or `|s|`. */
  function UriIndex(s: string, from: nat): (r: nat)
    requires from <= |s|
    ensures from <= r <= |s|
    ensures r < |s| ==> UriMatchesAt(s, r)
    ensures forall j :: from <= j < r ==> !UriMatchesAt(s, j)
    decreases |s| - from
  {
    if from == |s| || UriMatchesAt(s, from) then from else UriIndex(s, from + 1)
  }

  /** `LinkUriRegex.Match(link).Groups[1].Value`, or `None` for no match:
      a non-empty text with no line break, between a '<' and a '>'. */
  function UriMatch(s: string): (r: Option<string>)
    ensures r.Some? ==> r.value != [] && '\n' !in r.value
  {
    var i := UriIndex(s, 0);
    if i < |s| then Some(s[i + 1..UriCloseAt(s, i)]) else None
  }

  /** On a line without breaks the captured URI is the text between the
      first '<' and the last '>', and there is none unless that '>' lies at
      least two places after that '<'. */
  lemma {:induction false} UriBetweenFirstOpenAndLastClose(s: string)
    requires '\n' !in s
    ensures var i := IndexOf(s, '<', 0);
      var k := LastIndexOf(s, '>', 0, |s|);
      UriMatch(s) == if i < |s| && k >= i + 2 then Some(s[i + 1..k]) else None
  {
    var i := IndexOf(s, '<', 0);
    var k := LastIndexOf(s, '>', 0, |s|);
    forall j | 0 <= j < |s|
      ensures UriCloseAt(s, j) == (if k >= j + 2 then k else j + 1)
    {
      NoLineBreak(s, j + 1);
      if j + 2 <= |s| {
        var kj := LastIndexOf(s, '>', j + 2, |s|);
        if k >= j + 2 {
          assert kj >= k;
        } else {
          assert kj < j + 2;
        }
      }
    }
    var u := UriIndex(s, 0);
    if i < |s| && k >= i + 2 {
      assert UriMatchesAt(s, i);
      assert u == i;
    } else {
    }
  }

  lemma NoLineBreak(s: string, from: nat)
    requires '\n' !in s && from <= |s|
    ensures IndexOf(s, '\n', from) == |s|
  {
  }

  /* ---------- the Link header ---------- */

  /** One comma-separated piece of the `Link` header: its rel name and URI,
      or `None` when either pattern fails. */
  function LinkSegment(segment: string): (r: Option<(string, string)>)
    ensures r.Some? ==> IsRelName(r.value.0)
    ensures r.Some? <==> RelMatch(segment).Some? && UriMatch(segment).Some?
  {
    match RelMatch(segment)
    case None => None
    case Some(rel) =>
      match UriMatch(segment)
      case None => None
      case Some(uri) => Some((rel, uri))
  }

  /** The loop over the segments, continuing from the links gathered in `acc`:
      it stops at the first segment that does not parse, and `Add` raises on
      a rel already present. */
  function LinksFrom(acc: map<string, string>, segments: seq<string>): (r: Result<map<string, string>, Error>)
    ensures r.Success? ==> acc.Keys <= r.value.Keys
    ensures r.Success? ==> forall k :: k in acc ==> r.value[k] == acc[k]
    ensures r.Success? ==> forall k :: k in r.value && k !in acc ==> IsRelName(k)
    ensures r.Failure? ==> r.error.DuplicateKey? && IsRelName(r.error.key)
    decreases |segments|
  {
    if segments == [] then Success(acc)
    else match LinkSegment(segments[0])
      case None => Success(acc)
      case Some((rel, uri)) =>
        if rel in acc then Failure(DuplicateKey(rel))
        else LinksFrom(acc[rel := uri], segments[1..])
  }

  /** Whatever follows the first bad segment is never looked at: the links
      gathered before it are the result. */
  lemma {:induction false} LinksStopAtFirstBadSegment(acc: map<string, string>, good: seq<string>, bad: string, rest: seq<string>)
    requires LinkSegment(bad).None?
    ensures LinksFrom(acc, good + [bad] + rest) == LinksFrom(acc, good + [bad])
    ensures LinksFrom(acc, good + [bad]) == LinksFrom(acc, good)
    decreases |good|
  {
    if good == [] {
      assert good + [bad] + rest == [bad] + rest;
      assert good + [bad] == [bad];
    } else {
      assert (good + [bad] + rest)[1..] == good[1..] + [bad] + rest;
      assert (good + [bad])[1..] == good[1..] + [bad];
      match LinkSegment(good[0])
      case None =>
      case Some((rel, uri)) =>
        if rel !in acc {
          LinksStopAtFirstBadSegment(acc[rel := uri], good[1..], bad, rest);
        }
    }
  }

  /** Two segments with the same rel raise a duplicate-key error. */
  lemma DuplicateRelRejected(first: string, second: string)
    requires LinkSegment(first).Some? && LinkSegment(second).Some?
    requires LinkSegment(first).value.0 == LinkSegment(second).value.0
    ensures LinksFrom(map[], [first, second]) == Failure(DuplicateKey(LinkSegment(first).value.0))
  {
    assert [first, second][1..] == [second];
  }

  /** The (rel, URI) pairs of the leading segments that parse, in order: the
      segments the loop adds, up to the first one that does not match. */
  function Gathered(segments: seq<string>): (g: seq<(string, string)>)
    ensures |g| <= |segments|
    decreases |segments|
  {
    if segments == [] then []
    else match LinkSegment(segments[0])
      case None => []
      case Some(link) => [link] + Gathered(segments[1..])
  }

  /** Each gathered pair is what its segment parses to, and the segment
      after the last one gathered does not parse. */
  lemma GatheredParse(segments: seq<string>)
    ensures var g := Gathered(segments);
      && (forall i :: 0 <= i < |g| ==> LinkSegment(segments[i]) == Some(g[i]))
      && (|g| < |segments| ==> LinkSegment(segments[|g|]).None?)
  {
    GatheredPairs(segments);
    GatheredStops(segments);
  }

  lemma {:induction false} GatheredPairs(segments: seq<string>)
    ensures forall i :: 0 <= i < |Gathered(segments)| ==> LinkSegment(segments[i]) == Some(Gathered(segments)[i])
    decreases |segments|
  {
    if segments != [] && LinkSegment(segments[0]).Some? {
      var tail := segments[1..];
      var rest := Gathered(tail);
      GatheredPairs(tail);
      var g := [LinkSegment(segments[0]).value] + rest;
      assert Gathered(segments) == g;
      forall i | 0 <= i < |g|
        ensures LinkSegment(segments[i]) == Some(g[i])
      {
        if i > 0 {
          assert segments[i] == tail[i - 1] && g[i] == rest[i - 1];
        }
      }
    }
  }

  lemma {:induction false} GatheredStops(segments: seq<string>)
    ensures |Gathered(segments)| < |segments| ==> LinkSegment(segments[|Gathered(segments)|]).None?
    decreases |segments|
  {
    if segments != [] && LinkSegment(segments[0]).Some? {
      var tail := segments[1..];
      GatheredStops(tail);
      assert |Gathered(segments)| == 1 + |Gathered(tail)|;
      if |Gathered(tail)| < |tail| {
        assert segments[|Gathered(segments)|] == tail[|Gathered(tail)|];
      }
    }
  }

  /** No gathered rel is already present or repeats an earlier one. */
  predicate FreshRels(acc: map<string, string>, links: seq<(string, string)>) {
    && (forall i :: 0 <= i < |links| ==> links[i].0 !in acc)
    && (forall i, j :: 0 <= j < i < |links| ==> links[j].0 != links[i].0)
  }

  /** What the loop gathers: it succeeds exactly when the rels of the
      leading segments that parse are new and pairwise different; then each
      of those rels maps to its segment's URI, and no other key is added. */
  lemma LinksFromContents(acc: map<string, string>, segments: seq<string>)
    ensures var g := Gathered(segments);
      var r := LinksFrom(acc, segments);
      && (r.Success? <==> FreshRels(acc, g))
      && (r.Success? ==> r.value.Keys == acc.Keys + set link | link in g :: link.0)
      && (r.Success? ==> forall i :: 0 <= i < |g| ==> g[i].0 in r.value && r.value[g[i].0] == g[i].1)
  {
    LinksFromSucceeds(acc, segments);
    LinksFromKeys(acc, segments);
    LinksFromValues(acc, segments);
  }

  lemma {:induction false} LinksFromSucceeds(acc: map<string, string>, segments: seq<string>)
    ensures LinksFrom(acc, segments).Success? <==> FreshRels(acc, Gathered(segments))
    decreases |segments|
  {
    if segments != [] && LinkSegment(segments[0]).Some? {
      var link := LinkSegment(segments[0]).value;
      assert Gathered(segments) == [link] + Gathered(segments[1..]);
      FreshRelsStep(acc, link, Gathered(segments[1..]));
      if link.0 !in acc {
        LinksFromSucceeds(acc[link.0 := link.1], segments[1..]);
      }
    }
  }

  lemma {:induction false} LinksFromKeys(acc: map<string, string>, segments: seq<string>)
    ensures LinksFrom(acc, segments).Success? ==>
      LinksFrom(acc, segments).value.Keys == acc.Keys + set link | link in Gathered(segments) :: link.0
    decreases |segments|
  {
    if segments != [] && LinkSegment(segments[0]).Some? {
      var link := LinkSegment(segments[0]).value;
      var rest := Gathered(segments[1..]);
      assert Gathered(segments) == [link] + rest;
      if link.0 !in acc {
        LinksFromKeys(acc[link.0 := link.1], segments[1..]);
        RelSetOfCons(link, rest);
      }
    }
  }

  lemma RelSetOfCons(link: (string, string), rest: seq<(string, string)>)
    ensures (set l | l in [link] + rest :: l.0) == {link.0} + set l | l in rest :: l.0
  {
  }

  /** Every gathered rel is a key of `r` holding its URI. */
  predicate HoldsLinks(r: map<string, string>, links: seq<(string, string)>) {
    forall i :: 0 <= i < |links| ==> links[i].0 in r && r[links[i].0] == links[i].1
  }

  lemma {:induction false} LinksFromValues(acc: map<string, string>, segments: seq<string>)
    ensures LinksFrom(acc, segments).Success? ==> HoldsLinks(LinksFrom(acc, segments).value, Gathered(segments))
    decreases |segments|
  {
    if segments != [] && LinkSegment(segments[0]).Some? {
      var link := LinkSegment(segments[0]).value;
      var rest := Gathered(segments[1..]);
      assert Gathered(segments) == [link] + rest;
      if link.0 !in acc {
        var next := acc[link.0 := link.1];
        LinksFromValues(next, segments[1..]);
        var r := LinksFrom(next, segments[1..]);
        if r.Success? {
          ValuesOfCons(next, link, rest, r.value);
        }
      }
    }
  }

  /** The first link is in the map the rest of the loop started from, so it
      is still there with its URI. */
  lemma ValuesOfCons(next: map<string, string>, link: (string, string), rest: seq<(string, string)>, r: map<string, string>)
    requires link.0 in next && next[link.0] == link.1
    requires forall k :: k in next ==> k in r && r[k] == next[k]
    requires HoldsLinks(r, rest)
    ensures HoldsLinks(r, [link] + rest)
  {
    var g := [link] + rest;
    forall i | 0 <= i < |g|
      ensures g[i].0 in r && r[g[i].0] == g[i].1
    {
      if i > 0 {
        assert g[i] == rest[i - 1];
      }
    }
  }

  /** Gathering one link moves the freshness condition one link along. */
  lemma FreshRelsStep(acc: map<string, string>, link: (string, string), rest: seq<(string, string)>)
    ensures FreshRels(acc, [link] + rest) <==> link.0 !in acc && FreshRels(acc[link.0 := link.1], rest)
  {
    var g := [link] + rest;
    assert forall i :: 0 <= i < |rest| ==> rest[i] == g[i + 1];
    if link.0 !in acc && FreshRels(acc[link.0 := link.1], rest) {
      forall i, j | 0 <= j < i < |g|
        ensures g[j].0 != g[i].0
      {
        if j > 0 {
          assert rest[j - 1].0 != rest[i - 1].0;
        } else {
          assert rest[i - 1].0 !in acc[link.0 := link.1];
        }
      }
      forall i | 0 <= i < |g|
        ensures g[i].0 !in acc
      {
        if i > 0 {
          assert rest[i - 1].0 !in acc[link.0 := link.1];
        }
      }
    }
    if FreshRels(acc, g) {
      assert g[0] == link;
      forall i | 0 <= i < |rest|
        ensures rest[i].0 !in acc[link.0 := link.1]
      {
        assert g[0].0 != g[i + 1].0;
      }
      forall i, j | 0 <= j < i < |rest|
        ensures rest[j].0 != rest[i].0
      {
        assert g[j + 1].0 != g[i + 1].0;
      }
    }
  }

  /* ---------- a well-formed segment round trip ---------- */

  /** A `Link` segment as servers write it: `<uri>; rel="name"`. */
  function LinkValue(uri: string, rel: string): (r: string) {
    "<" + uri + ">; rel=\"" + rel + "\""
  }

  /** The rel names start with four different letters, in either case. */
  lemma RelNamesDiffer()
    ensures forall a, b :: a in RelNames && b in RelNames && a != b ==> Upper(a[0]) != Upper(b[0])
  {
  }

  /** A rel name, in whatever case, is made of letters only. */
  lemma RelNameIsLetters(v: string)
    requires IsRelName(v)
    ensures v != [] && '"' !in v && '>' !in v && '<' !in v && '\n' !in v && ',' !in v
  {
    var n :| n in RelNames && EqualsIgnoreCase(v, n);
    forall i | 0 <= i < |v|
      ensures 'A' <= Upper(v[i]) <= 'Z'
    {
      assert Upper(v[i]) == Upper(n[i]);
    }
  }

  /** No rel match can start where its opening quote would be missing. */
  lemma RelNeedsQuote(s: string, j: nat)
    requires j + 4 >= |s| || s[j + 4] != '"'
    ensures RelAt(s, j).None?
  {
    if j + 5 <= |s| {
      assert s[j..j + 5][4] == s[j + 4];
      assert Upper(s[j + 4]) != Upper("rel=\""[4]);
    }
  }

  lemma {:induction false} RelNameFromFinds(s: string, j: nat, names: seq<string>, name: string)
    requires forall k :: 0 <= k < |names| ==> names[k] in RelNames
    requires name in names && NameClosedAt(s, j, name)
    requires forall k :: 0 <= k < |names| && names[k] != name ==> !NameClosedAt(s, j, names[k])
    ensures RelNameFrom(s, j, names) == Some(s[j..j + |name|])
  {
    if names[0] != name {
      RelNameFromFinds(s, j, names[1..], name);
    }
  }

  /** After `rel="`, a rel name written in any case, then `"`, is captured as written. */
  lemma RelNameCapturedAsWritten(s: string, j: nat, rel: string)
    requires IsRelName(rel)
    requires j + |rel| < |s| && s[j..j + |rel|] == rel && s[j + |rel|] == '"'
    ensures RelNameFrom(s, j, RelNames) == Some(rel)
  {
    var name :| name in RelNames && EqualsIgnoreCase(rel, name);
    assert NameClosedAt(s, j, name);
    assert Upper(s[j]) == Upper(name[0]) by {
      assert s[j] == rel[0];
    }
    forall k | 0 <= k < |RelNames| && RelNames[k] != name
      ensures !NameClosedAt(s, j, RelNames[k])
    {
      OtherNameNotClosed(s, j, name, RelNames[k]);
    }
    RelNameFromFinds(s, j, RelNames, name);
  }

  /** Once the first letter matches one rel name, no other rel name can match there. */
  lemma OtherNameNotClosed(s: string, j: nat, name: string, other: string)
    requires name in RelNames && other in RelNames && name != other
    requires j < |s| && Upper(s[j]) == Upper(name[0])
    ensures !NameClosedAt(s, j, other)
  {
    RelNamesDiffer();
    if j + |other| < |s| {
      assert s[j..j + |other|][0] == s[j];
    }
  }

  /** `rel="`, then a rel name, then `"`: the match at that point captures the name. */
  lemma RelAtQuotedName(s: string, at: nat, rel: string)
    requires IsRelName(rel)
    requires at + 5 + |rel| < |s| && s[at..at + 5] == "rel=\""
    requires s[at + 5..at + 5 + |rel|] == rel && s[at + 5 + |rel|] == '"'
    ensures RelAt(s, at) == Some(rel)
  {
    EqualsIgnoreCaseReflexive("rel=\"");
    RelNameCapturedAsWritten(s, at + 5, rel);
  }

  lemma RelAtLinkValue(uri: string, rel: string)
    requires IsRelName(rel)
    ensures RelAt(LinkValue(uri, rel), |uri| + 4) == Some(rel)
  {
    var head := "<" + uri + ">; rel=";
    var s := LinkValue(uri, rel);
    assert s == head + ("\"" + rel + "\"");
    var at := |head| - 4;
    assert s[at..at + 5] == "rel=\"";
    assert s[at + 5..at + 5 + |rel|] == rel;
    RelAtQuotedName(s, at, rel);
  }

  /** No rel match starts before the first '"' could serve as its opening quote. */
  lemma NoRelBeforeQuote(s: string, head: string)
    requires |head| <= |s| && s[..|head|] == head && '"' !in head
    ensures forall j :: 0 <= j < |head| - 4 ==> RelAt(s, j).None?
  {
    forall j | 0 <= j < |head| - 4
      ensures RelAt(s, j).None?
    {
      assert s[j + 4] == head[j + 4];
      RelNeedsQuote(s, j);
    }
  }

  lemma LinkValueRel(uri: string, rel: string)
    requires IsRelName(rel)
    requires '"' !in uri
    ensures RelMatch(LinkValue(uri, rel)) == Some(rel)
  {
    var head := "<" + uri + ">; rel=";
    var s := LinkValue(uri, rel);
    RelAtLinkValue(uri, rel);
    assert s[..|head|] == head;
    NoRelBeforeQuote(s, head);
    assert RelIndex(s, 0) == |head| - 4;
  }

  lemma LinkValueUri(uri: string, rel: string)
    requires IsRelName(rel)
    requires uri != [] && '<' !in uri && '>' !in uri && '\n' !in uri
    ensures UriMatch(LinkValue(uri, rel)) == Some(uri)
  {
    var s := LinkValue(uri, rel);
    var n := |uri|;
    LinkValueShape(uri, rel);
    assert IndexOf(s, '<', 0) == 0;
    assert LastIndexOf(s, '>', 0, |s|) == n + 1;
    UriBetweenFirstOpenAndLastClose(s);
  }

  /** Where the brackets of a well-formed segment are. */
  lemma LinkValueShape(uri: string, rel: string)
    requires IsRelName(rel)
    requires '\n' !in uri
    ensures var s := LinkValue(uri, rel);
      && '\n' !in s && s[0] == '<' && s[1..|uri| + 1] == uri && s[|uri| + 1] == '>'
      && forall j :: |uri| + 1 < j < |s| ==> s[j] != '>'
  {
    var s := LinkValue(uri, rel);
    var n := |uri|;
    var tail := "; rel=\"" + rel + "\"";
    assert s == "<" + uri + ">" + tail;
    RelNameIsLetters(rel);
    assert '>' !in tail;
    assert s[n + 2..] == tail;
    forall j | n + 1 < j < |s|
      ensures s[j] != '>'
    {
      assert s[j] == tail[j - (n + 2)];
    }
  }

  /** A segment written as `<uri>; rel="name"` parses back to that name, in
      the case it was written in, and that URI. */
  lemma LinkValueParses(uri: string, rel: string)
    requires IsRelName(rel)
    requires uri != [] && '<' !in uri && '>' !in uri && '"' !in uri && '\n' !in uri
    ensures LinkSegment(LinkValue(uri, rel)) == Some((rel, uri))
  {
    LinkValueUri(uri, rel);
    LinkValueRel(uri, rel);
  }

  /* ---------- the whole parse ---------- */

  /** The scope list of a header when it is present, empty otherwise. */
  function ScopesOf(headers: seq<Header>, name: string): (r: seq<string>)
    ensures (forall j | 0 <= j < |headers| :: !EqualsIgnoreCase(headers[j].0, name)) ==> r == []
    ensures var j := FirstHeader(headers, name, 0); j < |headers| ==> r == ScopeList(headers[j].1)
  {
    var kvp := LookupHeader(headers, name);
    if Exists(kvp) then ScopeList(kvp.value.value) else []
  }

  /** `ParseResponseHeaders(responseHeaders)`. */
  function ParsedHeaders(responseHeaders: Option<seq<Header>>): (r: Result<ApiInfo, Error>)
    ensures responseHeaders.None? ==> r == Failure(ArgumentNull("responseHeaders"))
    ensures r.Failure? && responseHeaders.Some? ==> r.error.DuplicateKey?
    ensures r.Success? ==> forall k :: k in r.value.links ==> IsRelName(k)
  {
    match responseHeaders
    case None => Failure(ArgumentNull("responseHeaders"))
    case Some(headers) =>
      var accepted := ScopesOf(headers, AcceptedOauthScopesHeader);
      var oauth := ScopesOf(headers, OauthScopesHeader);
      var etagKey := LookupHeader(headers, EtagHeader);
      var etag := if Exists(etagKey) then etagKey.value else None;
      var linkKey := LookupHeader(headers, LinkHeader);
      var links := if Exists(linkKey) then LinksFrom(map[], Split(linkKey.value.value, ',')) else Success(map[]);
      match links
      case Failure(e) => Failure(e)
      case Success(l) => NewApiInfo(Some(l), Some(oauth), Some(accepted), etag)
  }

  /** `ParseResponseHeaders`, step by step: the lists are filled with
      `AddRange`, the links one `Add` at a time until the first bad segment. */
  method ParseResponseHeaders(responseHeaders: Option<seq<Header>>) returns (r: Result<ApiInfo, Error>)
    ensures r == ParsedHeaders(responseHeaders)
  {
    if responseHeaders.None? {
      return Failure(ArgumentNull("responseHeaders"));
    }
    var headers := responseHeaders.value;
    var httpLinks: map<string, string> := map[];
    var oauthScopes: seq<string> := [];
    var acceptedOauthScopes: seq<string> := [];
    var etag: Option<string> := None;

    var acceptedOauthScopesKey := LookupHeader(headers, AcceptedOauthScopesHeader);
    if Exists(acceptedOauthScopesKey) {
      acceptedOauthScopes := acceptedOauthScopes + ScopeList(acceptedOauthScopesKey.value.value);
    }
    assert acceptedOauthScopes == ScopesOf(headers, AcceptedOauthScopesHeader);
    var oauthScopesKey := LookupHeader(headers, OauthScopesHeader);
    if Exists(oauthScopesKey) {
      oauthScopes := oauthScopes + ScopeList(oauthScopesKey.value.value);
    }
    assert oauthScopes == ScopesOf(headers, OauthScopesHeader);
    var etagKey := LookupHeader(headers, EtagHeader);
    if Exists(etagKey) {
      etag := etagKey.value;
    }
    var linkKey := LookupHeader(headers, LinkHeader);
    if Exists(linkKey) {
      var links := CollectLinks(Split(linkKey.value.value, ','));
      if links.Failure? {
        return Failure(links.error);
      }
      httpLinks := links.value;
    }
    r := NewApiInfo(Some(httpLinks), Some(oauthScopes), Some(acceptedOauthScopes), etag);
  }

  /** The `foreach` over the `Link` segments: `Add` for each segment that
      parses, `break` at the first one that does not. */
  method CollectLinks(links: seq<string>) returns (r: Result<map<string, string>, Error>)
    ensures r == LinksFrom(map[], links)
  {
    var httpLinks: map<string, string> := map[];
    var i := 0;
    while i < |links|
      invariant 0 <= i <= |links|
      invariant LinksFrom(httpLinks, links[i..]) == LinksFrom(map[], links)
      decreases |links| - i
    {
      var segment := LinkSegment(links[i]);
      assert links[i..][0] == links[i];
      if segment.None? {
        assert LinksFrom(httpLinks, links[i..]) == Success(httpLinks);
        break;
      }
      var (rel, uri) := segment.value;
      if rel in httpLinks {
        return Failure(DuplicateKey(rel));
      }
      assert links[i..][1..] == links[i + 1..];
      assert LinksFrom(httpLinks, links[i..]) == LinksFrom(httpLinks[rel := uri], links[i + 1..]);
      httpLinks := httpLinks[rel := uri];
      i := i + 1;
    }
    r := Success(httpLinks);
  }

  /** Where each field comes from. Each scope list is read from the first
      header of its own name, ignoring case, and is empty without one. The
      ETag is the first `ETag` value. The links are gathered from the comma
      pieces of the first `Link` header, and the parse fails exactly when
      that gathering does. */
  lemma HeadersFeedTheirFields(headers: seq<Header>)
    ensures var r := ParsedHeaders(Some(headers));
      var oauth := LookupHeader(headers, OauthScopesHeader);
      var accepted := LookupHeader(headers, AcceptedOauthScopesHeader);
      r.Success? ==>
        && r.value.oauthScopes == (if oauth == DefaultPair then [] else ScopeList(oauth.value.value))
        && r.value.acceptedOauthScopes == (if accepted == DefaultPair then [] else ScopeList(accepted.value.value))
        && r.value.etag == LookupHeader(headers, EtagHeader).value
    ensures var r := ParsedHeaders(Some(headers));
      var link := LookupHeader(headers, LinkHeader);
      && (link == DefaultPair ==> r.Success? && r.value.links == map[])
      && (link != DefaultPair ==>
            var gathered := LinksFrom(map[], Split(link.value.value, ','));
            && (r.Success? <==> gathered.Success?)
            && (r.Success? ==> r.value.links == gathered.value)
            && (r.Failure? ==> r.error == gathered.error))
  {
  }

  /** Missing headers give empty links, empty scope lists and no ETag, not an error. */
  lemma AbsentHeadersGiveEmptyInfo(headers: seq<Header>)
    requires forall j :: 0 <= j < |headers| ==>
      && !EqualsIgnoreCase(headers[j].0, AcceptedOauthScopesHeader)
      && !EqualsIgnoreCase(headers[j].0, OauthScopesHeader)
      && !EqualsIgnoreCase(headers[j].0, EtagHeader)
      && !EqualsIgnoreCase(headers[j].0, LinkHeader)
    ensures ParsedHeaders(Some(headers)) == Success(ApiInfo(map[], [], [], None))
  {
  }

  /** The ETag is the value of the first header named `ETag` in any case, verbatim. */
  lemma EtagIsVerbatim(headers: seq<Header>, j: nat)
    requires j < |headers| && EqualsIgnoreCase(headers[j].0, EtagHeader)
    requires forall i :: 0 <= i < j ==> !EqualsIgnoreCase(headers[i].0, EtagHeader)
    requires ParsedHeaders(Some(headers)).Success?
    ensures ParsedHeaders(Some(headers)).value.etag == Some(headers[j].1)
  {
    LookupFindsFirstMatch(headers, EtagHeader, j);
  }

  /** A response whose only header is `Link: <uri>; rel="name"` carries that
      one link and nothing else. */
  lemma SingleLinkHeader(uri: string, rel: string)
    requires IsRelName(rel)
    requires uri != [] && '<' !in uri && '>' !in uri && '"' !in uri && '\n' !in uri && ',' !in uri
    ensures ParsedHeaders(Some([(LinkHeader, LinkValue(uri, rel))])) == Success(ApiInfo(map[rel := uri], [], [], None))
  {
    var v := LinkValue(uri, rel);
    var headers := [(LinkHeader, v)];
    RelNameIsLetters(rel);
    assert ',' !in v by {
      assert v == "<" + uri + ">; rel=\"" + rel + "\"";
    }
    SplitJoin([v], ',');
    assert Split(v, ',') == [v];
    LinkValueParses(uri, rel);
    assert LinksFrom(map[], [v]) == Success(map[rel := uri]) by {
      assert [v][1..] == [];
    }
    EqualsIgnoreCaseReflexive(LinkHeader);
    LookupFindsFirstMatch(headers, LinkHeader, 0);
    assert !EqualsIgnoreCase(LinkHeader, EtagHeader) by {
      assert Upper(LinkHeader[0]) != Upper(EtagHeader[0]);
    }
    assert !Exists(LookupHeader(headers, EtagHeader));
    assert !Exists(LookupHeader(headers, OauthScopesHeader));
    assert !Exists(LookupHeader(headers, AcceptedOauthScopesHeader));
  }

  /** `Link: <http://x/2>; rel="next"` gives the single link next -> http://x/2. */
  lemma NextLinkExample(uri: string, rel: string)
    requires uri == "http://x/2" && rel == "next"
    ensures ParsedHeaders(Some([(LinkHeader, LinkValue(uri, rel))])) == Success(ApiInfo(map[rel := uri], [], [], None))
  {
    EqualsIgnoreCaseReflexive(rel);
    assert rel in RelNames;
    SingleLinkHeader(uri, rel);
  }
}
