/** Bookmarks (utils/bookmarks.go, and the earlier copies in main.go): the
    URL a bookmark file gives a station, the walk that collects every
    bookmark below a directory, and their insertion into a browser's
    policies document. The YAML and JSON codecs are parameters. */
module Bookmarks {
  import opened Wrappers
  import opened Text
  import opened Order
  import opened Paths
  import opened Files
  import opened Misc

  // ------------------------------------------------------------------
  // Decoded YAML

  /** A key of a decoded YAML mapping: `"01"` decodes to a string, `01` to
      the integer 1; keys of any other type never match a lookup. */
  datatype Key = StrKey(s: string) | IntKey(i: int) | OtherKey

  /** The `url` field as the YAML decoder leaves it in an `any`: `Nil` when
      the field is absent, a string, a `map[any]any`, a `[]any`, or anything
      else (a number, a boolean, a mapping of another Go type). */
  datatype Value = Nil | Str(s: string) | ByKey(m: map<Key, Value>) | List(items: seq<Value>) | Scalar

  /** `Bookmark{Name, URL}`. */
  datatype Bookmark = Bookmark(name: string, url: Value)

  /** The zero value `Bookmark{}`. */
  const ZeroBookmark := Bookmark("", Nil)

  /** What `GetURL` returns: a bookmark and an error. */
  datatype Resolved = Resolved(bm: Bookmark, err: Option<Error>)

  /** Success: the bookmark's name with the chosen URL string. */
  function Found(b: Bookmark, u: string): Resolved
  {
    Resolved(Bookmark(b.name, Str(u)), None)
  }

  /** Failure: the zero bookmark and an "invalid bookmark URL format" error. */
  const NotFound := Resolved(ZeroBookmark, Some(InvalidFormat))

  /** `url[k]` is present and holds a string. */
  predicate StrAt(m: map<Key, Value>, k: Key)
  {
    k in m && m[k].Str?
  }

  // ------------------------------------------------------------------
  // GetURL

  /** `(*Bookmark).GetURL(stationNum)`. A string URL is kept. A mapping is
      looked up with the station number as a string key, then with its
      `Atoi` value as an integer key; it has no fallback. A list is indexed
      by the number minus one when that is a string in range, and otherwise
      falls back to its first element when that is a string. Anything else
      is an error. */
  function GetURL(b: Bookmark, station: string): (r: Resolved)
    ensures r.err.None? ==> r.bm.name == b.name && r.bm.url.Str?
    ensures r.err.Some? ==> r == NotFound
  {
    match b.url
    case Str(u) => Found(b, u)
    case ByKey(m) =>
      if StrAt(m, StrKey(station)) then Found(b, m[StrKey(station)].s)
      else if Atoi(station).Some? && StrAt(m, IntKey(Atoi(station).value)) then
        Found(b, m[IntKey(Atoi(station).value)].s)
      else NotFound
    case List(items) =>
      var n := Atoi(station);
      if n.Some? && n.value > 0 && n.value - 1 < |items| && items[n.value - 1].Str? then
        Found(b, items[n.value - 1].s)
      else if |items| > 0 && items[0].Str? then Found(b, items[0].s)
      else NotFound
    case _ => NotFound
  }

  /** The places a URL value offers for a station, in the order they are
      tried, whatever they hold. */
  function Candidates(url: Value, station: string): seq<Value>
  {
    match url
    case Str(_) => [url]
    case ByKey(m) =>
      (if StrKey(station) in m then [m[StrKey(station)]] else [])
      + (if Atoi(station).Some? && IntKey(Atoi(station).value) in m then [m[IntKey(Atoi(station).value)]] else [])
    case List(items) =>
      var n := Atoi(station);
      (if n.Some? && 0 < n.value <= |items| then [items[n.value - 1]] else [])
      + (if |items| > 0 then [items[0]] else [])
    case _ => []
  }

  /** The first string among some values. */
  function FirstString(vs: seq<Value>): (r: Option<string>)
    ensures r.Some? <==> exists k :: 0 <= k < |vs| && vs[k].Str?
    ensures r.Some? ==> Str(r.value) in vs
    ensures r.Some? && vs[0] != Str(r.value) ==> !vs[0].Str?
  {
    if |vs| == 0 then None
    else if vs[0].Str? then Some(vs[0].s)
    else
      assert forall k :: 1 <= k < |vs| ==> vs[k] == vs[1..][k - 1];
      FirstString(vs[1..])
  }

  /** `GetURL` gives the first string among the candidates, and fails
      exactly when there is none. */
  lemma GetURLFirstCandidate(b: Bookmark, station: string)
    ensures var f := FirstString(Candidates(b.url, station));
      GetURL(b, station) == if f.Some? then Found(b, f.value) else NotFound
  {
    var c := Candidates(b.url, station);
    match b.url
    case Str(u) =>
    case ByKey(m) =>
      if StrKey(station) in m {
        assert c[0] == m[StrKey(station)];
      }
    case List(items) =>
      var n := Atoi(station);
      if n.Some? && 0 < n.value <= |items| {
        assert c[0] == items[n.value - 1];
      }
    case Nil =>
    case Scalar =>
  }

  /** A string URL comes back unchanged, with the same name. */
  lemma StringURLKept(name: string, u: string, station: string)
    ensures GetURL(Bookmark(name, Str(u)), station) == Resolved(Bookmark(name, Str(u)), None)
  {
  }

  /** A mapping resolves exactly when the string key or the integer key
      holds a string, and then the string key wins. Its other entries play
      no part: a mapping has no fallback. */
  lemma MappingResolves(name: string, m: map<Key, Value>, station: string)
    ensures var r := GetURL(Bookmark(name, ByKey(m)), station);
      && (r.err.None? <==> StrAt(m, StrKey(station)) || (Atoi(station).Some? && StrAt(m, IntKey(Atoi(station).value))))
      && (StrAt(m, StrKey(station)) ==> r.bm.url == m[StrKey(station)])
      && (!StrAt(m, StrKey(station)) && Atoi(station).Some? && StrAt(m, IntKey(Atoi(station).value)) ==>
            r.bm.url == m[IntKey(Atoi(station).value)])
  {
  }

  /** The padded station number "0" + d finds the integer key d in a
      mapping that has no such string key. */
  lemma PaddedStationFindsIntKey(name: string, m: map<Key, Value>, d: char, u: string)
    requires '1' <= d <= '9'
    requires !StrAt(m, StrKey(PadStationID([d])))
    requires IntKey(d as int - '0' as int) in m && m[IntKey(d as int - '0' as int)] == Str(u)
    ensures PadStationID([d]) == "0" + [d]
    ensures GetURL(Bookmark(name, ByKey(m)), PadStationID([d])) == Resolved(Bookmark(name, Str(u)), None)
  {
    PadStationIDKeepsNumber([d]);
    assert AllDigits([d]);
    assert DigitsValue([d]) == 10 * DigitsValue([]) + (d as int - '0' as int);
    assert Atoi([d]) == Some(d as int - '0' as int);
  }

  /** A list resolves to the element the station number points at when that
      is a string, and otherwise to its first element when that is a
      string; with neither it fails. */
  lemma ListResolves(name: string, items: seq<Value>, station: string)
    ensures var r := GetURL(Bookmark(name, List(items)), station);
      var n := Atoi(station);
      var positional := n.Some? && 0 < n.value <= |items| && items[n.value - 1].Str?;
      && (positional ==> r.bm.url == items[n.value - 1])
      && (!positional && |items| > 0 && items[0].Str? ==> r.bm.url == items[0])
      && (r.err.Some? <==> !positional && !(|items| > 0 && items[0].Str?))
  {
  }

  /** `GetURL(stationNum)` in main.go: the same, except that a list gives
      its first element only. */
  function GetURLOld(b: Bookmark, station: string): (r: Resolved)
    ensures r.err.None? ==> r.bm.name == b.name && r.bm.url.Str?
    ensures r.err.Some? ==> r == NotFound
  {
    match b.url
    case Str(u) => Found(b, u)
    case ByKey(m) =>
      if StrAt(m, StrKey(station)) then Found(b, m[StrKey(station)].s)
      else if Atoi(station).Some? && StrAt(m, IntKey(Atoi(station).value)) then
        Found(b, m[IntKey(Atoi(station).value)].s)
      else NotFound
    case List(items) =>
      if |items| > 0 && items[0].Str? then Found(b, items[0].s) else NotFound
    case _ => NotFound
  }

  /** The two versions differ only on lists: the older one ignores the
      station number there, and the newer one agrees with it whenever the
      number does not point at a string. */
  lemma OldAndNewGetURL(b: Bookmark, station: string)
    ensures !b.url.List? ==> GetURLOld(b, station) == GetURL(b, station)
    ensures b.url.List? ==> GetURLOld(b, station) == GetURLOld(b, "")
    ensures b.url.List? ==>
      var n := Atoi(station);
      !(n.Some? && 0 < n.value <= |b.url.items| && b.url.items[n.value - 1].Str?) ==>
        GetURLOld(b, station) == GetURL(b, station)
  {
  }

  /** Station 2 of a two-element list: the newer version takes the second
      URL, the older one the first. */
  lemma ListVersionsDiffer(name: string)
    ensures GetURL(Bookmark(name, List([Str("a"), Str("b")])), "2").bm.url == Str("b")
    ensures GetURLOld(Bookmark(name, List([Str("a"), Str("b")])), "2").bm.url == Str("a")
  {
    assert DigitsValue("2") == 10 * DigitsValue("") + 2;
    assert Atoi("2") == Some(2);
  }

  // ------------------------------------------------------------------
  // CollectBookmarks

  /** `yaml.Unmarshal` into a `Bookmark`. */
  type BookmarkDecoder = string -> Result<Bookmark>

  /** The resolution the walk applies: `GetURL` of utils/bookmarks.go, or
      with `older` the `GetURL` of main.go. */
  function Resolve(b: Bookmark, station: string, older: bool): (r: Resolved)
    ensures r.err.None? ==> r.bm.name == b.name && r.bm.url.Str?
    ensures r.err.Some? ==> r == NotFound
  {
    if older then GetURLOld(b, station) else GetURL(b, station)
  }

  /** What the file at `p` contributes: its bookmark resolved for the
      station, or nothing when it cannot be read, decoded or resolved. */
  function FileBookmarks(fs: FileSystem, p: Path, station: string, older: bool, decode: BookmarkDecoder): (r: seq<Bookmark>)
    ensures |r| <= 1
    ensures |r| == 1 <==>
      (ReadFile(fs, p).Ok? && decode(ReadFile(fs, p).value).Ok? && Resolve(decode(ReadFile(fs, p).value).value, station, older).err.None?)
    ensures |r| == 1 ==> r[0] == Resolve(decode(ReadFile(fs, p).value).value, station, older).bm
  {
    match ReadFile(fs, p)
    case Err(_) => []
    case Ok(data) =>
      match decode(data)
      case Err(_) => []
      case Ok(bm) =>
        var fin := Resolve(bm, station, older);
        if fin.err.Some? then [] else [fin.bm]
  }

  /** `CollectBookmarks(dir, stationNum)`: an unreadable directory is the
      only error; otherwise the bookmarks of its entries in listing order. */
  ghost function Collected(fs: FileSystem, d: Path, station: string, older: bool, decode: BookmarkDecoder): (r: Result<seq<Bookmark>>)
    ensures r.Err? <==> ReadDirErr(fs, d).Some?
    ensures r.Err? ==> r.error == ReadDirErr(fs, d).value
    decreases Below(fs, d) + {d}, 1, 0
  {
    if ReadDirErr(fs, d).Some? then Err(ReadDirErr(fs, d).value)
    else Ok(EntriesFrom(fs, d, Children(fs, d), station, older, decode))
  }

  /** The bookmarks of the entries `left` of directory `d`, first name
      first. */
  ghost function EntriesFrom(fs: FileSystem, d: Path, left: set<string>, station: string, older: bool, decode: BookmarkDecoder): seq<Bookmark>
    requires left <= Children(fs, d)
    decreases Below(fs, d) + {d}, 0, |left|
  {
    if left == {} then []
    else
      FirstNameExists(left);
      var n :| n in left && IsFirst(n, left);
      EntryBookmarks(fs, d, n, station, older, decode) + EntriesFrom(fs, d, left - {n}, station, older, decode)
  }

  /** One entry: a subdirectory gives what it collects, or nothing when it
      fails; a file gives its bookmark, if any. */
  ghost function EntryBookmarks(fs: FileSystem, d: Path, n: string, station: string, older: bool, decode: BookmarkDecoder): (r: seq<Bookmark>)
    requires n in Children(fs, d)
    ensures d + [n] in fs.nodes
    decreases Below(fs, d) + {d}, 0, 0
  {
    ChildIn(fs, d, n);
    if fs.nodes[d + [n]].Dir? then
      BelowChildSmaller(fs, d, n);
      var sub := Collected(fs, d + [n], station, older, decode);
      if sub.Err? then [] else sub.value
    else FileBookmarks(fs, d + [n], station, older, decode)
  }

  /** A subdirectory entry gives what the subdirectory collects, or nothing
      when it cannot be listed. */
  lemma EntryOfDir(fs: FileSystem, d: Path, n: string, station: string, older: bool, decode: BookmarkDecoder)
    requires d + [n] in fs.nodes && fs.nodes[d + [n]].Dir?
    ensures n in Children(fs, d)
    ensures var sub := Collected(fs, d + [n], station, older, decode);
      EntryBookmarks(fs, d, n, station, older, decode) == if sub.Err? then [] else sub.value
  {
    ChildrenOf(fs, d, n);
  }

  /** A file entry gives its resolved bookmark, if any. */
  lemma EntryOfFile(fs: FileSystem, d: Path, n: string, station: string, older: bool, decode: BookmarkDecoder)
    requires d + [n] in fs.nodes && fs.nodes[d + [n]].File?
    ensures n in Children(fs, d)
    ensures EntryBookmarks(fs, d, n, station, older, decode) == FileBookmarks(fs, d + [n], station, older, decode)
  {
    ChildrenOf(fs, d, n);
  }

  lemma AppendAssoc(a: seq<Bookmark>, b: seq<Bookmark>, c: seq<Bookmark>)
    ensures a + (b + c) == (a + b) + c
  {
  }

  /** Only one name of a listing comes first. */
  lemma FirstUnique(n: string, m: string, names: set<string>)
    requires n in names && m in names && IsFirst(n, names) && IsFirst(m, names)
    ensures n == m
  {
    if n != m {
      LessAsymmetric(n, m);
    }
  }

  /** Taking the first name off a listing. */
  lemma EntriesFromFirst(fs: FileSystem, d: Path, left: set<string>, n: string, station: string, older: bool, decode: BookmarkDecoder)
    requires left <= Children(fs, d) && n in left && IsFirst(n, left)
    ensures EntriesFrom(fs, d, left, station, older, decode)
      == EntryBookmarks(fs, d, n, station, older, decode) + EntriesFrom(fs, d, left - {n}, station, older, decode)
  {
    FirstNameExists(left);
    var m :| m in left && IsFirst(m, left)
      && EntriesFrom(fs, d, left, station, older, decode)
         == EntryBookmarks(fs, d, m, station, older, decode) + EntriesFrom(fs, d, left - {m}, station, older, decode);
    FirstUnique(n, m, left);
  }

  /** `CollectBookmarks(dir, stationNum)` (with `older`, its copy in
      main.go): list the directory (its failure is
      returned); then, entry by entry in listing order, append what a
      subdirectory collects (skipping it when it fails) or the resolved
      bookmark of a file (skipping a file that cannot be read, decoded or
      resolved). */
  method CollectBookmarks(fs: FileSystem, d: Path, station: string, older: bool, decode: BookmarkDecoder)
    returns (bms: seq<Bookmark>, err: Option<Error>)
    ensures err.Some? <==> Collected(fs, d, station, older, decode).Err?
    ensures err.Some? ==> bms == [] && err.value == Collected(fs, d, station, older, decode).error
    ensures err.None? ==> bms == Collected(fs, d, station, older, decode).value
    decreases Below(fs, d) + {d}
  {
    var e := ReadDirErr(fs, d);
    if e.Some? {
      return [], e;
    }
    bms := [];
    var left := Children(fs, d);
    assert EntriesFrom(fs, d, left, station, older, decode) == bms + EntriesFrom(fs, d, left, station, older, decode);
    while left != {}
      invariant left <= Children(fs, d)
      invariant EntriesFrom(fs, d, Children(fs, d), station, older, decode) == bms + EntriesFrom(fs, d, left, station, older, decode)
      decreases left
    {
      FirstNameExists(left);
      var n :| n in left && IsFirst(n, left);
      EntriesFromFirst(fs, d, left, n, station, older, decode);
      ChildIn(fs, d, n);
      ghost var before := bms;
      ghost var here := EntryBookmarks(fs, d, n, station, older, decode);
      ghost var rest := EntriesFrom(fs, d, left - {n}, station, older, decode);
      assert EntriesFrom(fs, d, left, station, older, decode) == here + rest;
      if fs.nodes[d + [n]].Dir? {
        BelowChildSmaller(fs, d, n);
        var sub, serr := CollectBookmarks(fs, d + [n], station, older, decode);
        if serr.None? {
          bms := bms + sub;
        }
        assert bms == before + EntryBookmarks(fs, d, n, station, older, decode) by {
          EntryOfDir(fs, d, n, station, older, decode);
        }
      } else {
        var data := ReadFile(fs, d + [n]);
        if data.Ok? {
          var bm := decode(data.value);
          if bm.Ok? {
            var fin := Resolve(bm.value, station, older);
            if fin.err.None? {
              bms := bms + [fin.bm];
            }
          }
        }
        assert bms == before + EntryBookmarks(fs, d, n, station, older, decode) by {
          EntryOfFile(fs, d, n, station, older, decode);
        }
      }
      assert bms == before + here;
      AppendAssoc(before, here, rest);
      left := left - {n};
    }
    return bms, None;
  }

  /** Bookmark `b` is the resolved bookmark of some readable, decodable file
      strictly below `d`. */
  ghost predicate FromFileBelow(fs: FileSystem, d: Path, b: Bookmark, station: string, older: bool, decode: BookmarkDecoder)
  {
    exists q :: d < q && q in fs.nodes && FileBookmarks(fs, q, station, older, decode) == [b]
  }

  /** Every collected bookmark comes from a file below the directory, and
      is a resolved one: a name and a URL string. */
  lemma {:induction false} CollectedFromFiles(fs: FileSystem, d: Path, station: string, older: bool, decode: BookmarkDecoder)
    requires Collected(fs, d, station, older, decode).Ok?
    ensures forall b :: b in Collected(fs, d, station, older, decode).value ==> FromFileBelow(fs, d, b, station, older, decode) && b.url.Str?
    decreases Below(fs, d) + {d}, 1, 0
  {
    EntriesFromFiles(fs, d, Children(fs, d), station, older, decode);
  }

  lemma {:induction false} EntriesFromFiles(fs: FileSystem, d: Path, left: set<string>, station: string, older: bool, decode: BookmarkDecoder)
    requires left <= Children(fs, d)
    ensures forall b :: b in EntriesFrom(fs, d, left, station, older, decode) ==> FromFileBelow(fs, d, b, station, older, decode) && b.url.Str?
    decreases Below(fs, d) + {d}, 0, |left|
  {
    if left != {} {
      FirstNameExists(left);
      var n :| n in left && IsFirst(n, left);
      EntriesFromFirst(fs, d, left, n, station, older, decode);
      EntriesFromFiles(fs, d, left - {n}, station, older, decode);
      EntryFromFiles(fs, d, n, station, older, decode);
    }
  }

  lemma {:induction false} EntryFromFiles(fs: FileSystem, d: Path, n: string, station: string, older: bool, decode: BookmarkDecoder)
    requires n in Children(fs, d)
    ensures forall b :: b in EntryBookmarks(fs, d, n, station, older, decode) ==> FromFileBelow(fs, d, b, station, older, decode) && b.url.Str?
    decreases Below(fs, d) + {d}, 0, 0
  {
    var c := d + [n];
    ChildIn(fs, d, n);
    if fs.nodes[c].Dir? {
      BelowChildSmaller(fs, d, n);
      if Collected(fs, c, station, older, decode).Ok? {
        CollectedFromFiles(fs, c, station, older, decode);
        forall b | b in EntryBookmarks(fs, d, n, station, older, decode) ensures FromFileBelow(fs, d, b, station, older, decode) {
          var q :| c < q && q in fs.nodes && FileBookmarks(fs, q, station, older, decode) == [b];
          assert d < q by {
            assert q[..|d|] == c[..|d|] == d;
          }
        }
      }
    } else {
      forall b | b in EntryBookmarks(fs, d, n, station, older, decode) ensures FromFileBelow(fs, d, b, station, older, decode) && b.url.Str? {
        assert d < c;
        assert FileBookmarks(fs, c, station, older, decode) == [b];
      }
    }
  }

  /** Whatever an entry gives ends up among the directory's bookmarks. */
  lemma {:induction false} EntryIncluded(fs: FileSystem, d: Path, left: set<string>, n: string, station: string, older: bool, decode: BookmarkDecoder)
    requires left <= Children(fs, d) && n in left
    ensures forall b :: b in EntryBookmarks(fs, d, n, station, older, decode) ==> b in EntriesFrom(fs, d, left, station, older, decode)
    decreases |left|
  {
    FirstNameExists(left);
    var m :| m in left && IsFirst(m, left);
    EntriesFromFirst(fs, d, left, m, station, older, decode);
    if m != n {
      EntryIncluded(fs, d, left - {m}, n, station, older, decode);
    }
  }

  /** A file directly inside a listable directory whose bookmark resolves is
      collected; so is everything a listable subdirectory collects. A
      subdirectory that cannot be listed contributes nothing and does not
      stop the walk. */
  lemma CollectedIncludes(fs: FileSystem, d: Path, n: string, station: string, older: bool, decode: BookmarkDecoder)
    requires ReadDirErr(fs, d).None? && d + [n] in fs.nodes
    ensures n in Children(fs, d)
    ensures fs.nodes[d + [n]].File? ==>
      forall b :: b in FileBookmarks(fs, d + [n], station, older, decode) ==> b in Collected(fs, d, station, older, decode).value
    ensures fs.nodes[d + [n]].Dir? && Collected(fs, d + [n], station, older, decode).Ok? ==>
      forall b :: b in Collected(fs, d + [n], station, older, decode).value ==> b in Collected(fs, d, station, older, decode).value
    ensures fs.nodes[d + [n]].Dir? && Collected(fs, d + [n], station, older, decode).Err? ==>
      EntryBookmarks(fs, d, n, station, older, decode) == []
  {
    ChildrenOf(fs, d, n);
    EntryIncluded(fs, d, Children(fs, d), n, station, older, decode);
  }

  // ------------------------------------------------------------------
  // InsertBookmarks

  /** A decoded JSON value, as far as the insertion looks at it: an object,
      the bookmark list it puts in, or anything else. */
  datatype Json = Object(fields: map<string, Json>) | BookmarkList(bms: seq<Bookmark>) | Other

  /** `var policies map[string]any` after `json.Unmarshal`: `Null` is the nil
      map that the document `null` leaves. */
  datatype Policies = Null | Policies(doc: map<string, Json>)

  /** `json.Unmarshal` and `json.MarshalIndent`. */
  datatype JsonCodec = JsonCodec(decode: string -> Result<Policies>, encode: Policies -> Result<string>)

  /** The switch on the browser: firefox sets `ManagedBookmarks` inside the
      object `policies` (a panic when that is not an object, or the map is
      nil); chromium sets it at the top level (a panic on a nil map); any
      other browser changes nothing. */
  function Insert(p: Policies, browser: string, bms: seq<Bookmark>): (r: Result<Policies>)
    ensures browser != "firefox" && browser != "chromium" ==> r == Ok(p)
    ensures r.Err? ==> r.error == Panic
  {
    if browser == "firefox" then
      if p.Policies? && "policies" in p.doc && p.doc["policies"].Object? then
        var inner := p.doc["policies"].fields;
        Ok(Policies(p.doc["policies" := Object(inner["ManagedBookmarks" := BookmarkList(bms)])]))
      else Err(Panic)
    else if browser == "chromium" then
      if p.Policies? then Ok(Policies(p.doc["ManagedBookmarks" := BookmarkList(bms)])) else Err(Panic)
    else Ok(p)
  }

  /** Firefox: the bookmarks land under `policies.ManagedBookmarks`, every
      other field at either level is kept, and a document without a
      `policies` object panics. */
  lemma InsertFirefox(p: Policies, bms: seq<Bookmark>)
    ensures var r := Insert(p, "firefox", bms);
      && (r.Ok? <==> p.Policies? && "policies" in p.doc && p.doc["policies"].Object?)
      && (r.Ok? ==>
            && r.value.Policies? && r.value.doc.Keys == p.doc.Keys
            && (forall k :: k in p.doc && k != "policies" ==> r.value.doc[k] == p.doc[k])
            && r.value.doc["policies"].Object?
            && r.value.doc["policies"].fields.Keys == p.doc["policies"].fields.Keys + {"ManagedBookmarks"}
            && r.value.doc["policies"].fields["ManagedBookmarks"] == BookmarkList(bms)
            && (forall k :: k in p.doc["policies"].fields && k != "ManagedBookmarks" ==>
                  r.value.doc["policies"].fields[k] == p.doc["policies"].fields[k]))
  {
  }

  /** Chromium: the bookmarks land at the top level and every other field
      is kept; only the nil map panics. */
  lemma InsertChromium(p: Policies, bms: seq<Bookmark>)
    ensures var r := Insert(p, "chromium", bms);
      && (r.Ok? <==> p.Policies?)
      && (r.Ok? ==>
            && r.value.Policies? && r.value.doc.Keys == p.doc.Keys + {"ManagedBookmarks"}
            && r.value.doc["ManagedBookmarks"] == BookmarkList(bms)
            && (forall k :: k in p.doc && k != "ManagedBookmarks" ==> r.value.doc[k] == p.doc[k]))
  {
  }

  /** Inserting the same bookmarks again changes nothing more. */
  lemma InsertIdempotent(p: Policies, browser: string, bms: seq<Bookmark>)
    requires Insert(p, browser, bms).Ok?
    ensures Insert(Insert(p, browser, bms).value, browser, bms) == Insert(p, browser, bms)
  {
    if browser == "firefox" {
      var inner := p.doc["policies"].fields;
      var inner' := inner["ManagedBookmarks" := BookmarkList(bms)];
      assert inner'["ManagedBookmarks" := BookmarkList(bms)] == inner';
      assert p.doc["policies" := Object(inner')]["policies" := Object(inner')] == p.doc["policies" := Object(inner')];
    } else if browser == "chromium" {
      var doc' := p.doc["ManagedBookmarks" := BookmarkList(bms)];
      assert doc'["ManagedBookmarks" := BookmarkList(bms)] == doc';
    }
  }

  /** `InsertBookmarks(browser, path, bookmarks)` (and `insertBookmarks` in
      main.go): read and decode the policies file, insert, encode, and write
      it back with mode 0644. Each failure is returned and nothing is written
      before the final write. */
  function InsertBookmarks(fs: FileSystem, browser: string, path: Path, bms: seq<Bookmark>, codec: JsonCodec): (r: Outcome)
    ensures r.fs.denied == fs.denied
    ensures ReadFile(fs, path).Err? ==> r == Outcome(fs, Some(ReadFile(fs, path).error))
    ensures r.fs != fs ==> ReadFile(fs, path).Ok? && CanWrite(fs, path)
    ensures r.fs != fs ==> path in r.fs.nodes && r.fs.nodes == fs.nodes[path := r.fs.nodes[path]]
  {
    match ReadFile(fs, path)
    case Err(e) => Outcome(fs, Some(e))
    case Ok(data) =>
      match codec.decode(data)
      case Err(e) => Outcome(fs, Some(e))
      case Ok(p) =>
        match Insert(p, browser, bms)
        case Err(e) => Outcome(fs, Some(e))
        case Ok(p') =>
          match codec.encode(p')
          case Err(e) => Outcome(fs, Some(e))
          case Ok(out) => WriteFile(fs, path, out, Mode644)
  }

  /** With a codec that round-trips, a successful insertion leaves a file
      that decodes to the policies with the bookmarks inserted; an unknown
      browser writes back what it read. */
  lemma InsertBookmarksRoundTrip(fs: FileSystem, browser: string, path: Path, bms: seq<Bookmark>, codec: JsonCodec)
    requires forall p :: codec.encode(p).Ok? ==> codec.decode(codec.encode(p).value) == Ok(p)
    requires InsertBookmarks(fs, browser, path, bms, codec).err.None?
    ensures ReadFile(fs, path).Ok? && codec.decode(ReadFile(fs, path).value).Ok?
    ensures var before := codec.decode(ReadFile(fs, path).value).value;
      var after := ReadFile(InsertBookmarks(fs, browser, path, bms, codec).fs, path);
      && Insert(before, browser, bms).Ok?
      && after.Ok? && codec.decode(after.value) == Insert(before, browser, bms)
      && (browser != "firefox" && browser != "chromium" ==> codec.decode(after.value) == Ok(before))
  {
    var before := codec.decode(ReadFile(fs, path).value).value;
    var p' := Insert(before, browser, bms).value;
    assert CanWrite(fs, path);
    assert ReadFile(InsertBookmarks(fs, browser, path, bms, codec).fs, path) == Ok(codec.encode(p').value);
  }
}
