/** The URL query-string parser and the choice of the network to load
    (`parse_query_string` and the start of `main`). The browser's
    `decodeURIComponent` is a foreign call and is passed in as `decode`. */
module Query {
  import opened Wrappers
  import opened Seqs

  /** `search.substr(1)`: the search string without its leading character
      (the `?`), or the empty string when there is nothing to drop. */
  function DropFirst(search: string): (r: string)
    ensures |search| == 0 ==> r == ""
    ensures |search| > 0 ==> [search[0]] + r == search
  {
    if |search| == 0 then "" else search[1..]
  }

  /** JavaScript `s.split(sep)` for a one-character separator: the texts
      between separators, in order; the empty string splits into `[""]`. */
  function Split(s: string, sep: char): (pieces: seq<string>)
    ensures |pieces| >= 1
    ensures forall k :: 0 <= k < |pieces| ==> sep !in pieces[k]
    decreases |s|
  {
    if sep !in s then [s]
    else
      var i := FirstIndex(s, sep);
      [s[..i]] + Split(s[i + 1..], sep)
  }

  /** The inverse of `Split`: the pieces glued back with the separator. */
  function Join(pieces: seq<string>, sep: char): (s: string)
    requires |pieces| >= 1
  {
    if |pieces| == 1 then pieces[0] else pieces[0] + [sep] + Join(pieces[1..], sep)
  }

  /** Splitting loses nothing: joining the pieces gives the text back. */
  lemma {:induction false} JoinSplit(s: string, sep: char)
    ensures Join(Split(s, sep), sep) == s
    decreases |s|
  {
    if sep in s {
      var i := FirstIndex(s, sep);
      var rest := Split(s[i + 1..], sep);
      var pieces := [s[..i]] + rest;
      assert Split(s, sep) == pieces;
      JoinSplit(s[i + 1..], sep);
      assert pieces[1..] == rest;
      assert Join(pieces, sep) == s[..i] + [sep] + Join(rest, sep);
      assert s == s[..i] + [sep] + s[i + 1..];
    }
  }

  /** Splitting is injective on separator-free pieces: `Split` undoes `Join`. */
  lemma {:induction false} SplitJoin(pieces: seq<string>, sep: char)
    requires |pieces| >= 1
    requires forall k :: 0 <= k < |pieces| ==> sep !in pieces[k]
    ensures Split(Join(pieces, sep), sep) == pieces
  {
    if |pieces| > 1 {
      var rest := Join(pieces[1..], sep);
      var s := pieces[0] + [sep] + rest;
      assert s[|pieces[0]|] == sep;
      assert s[..|pieces[0]|] == pieces[0];
      assert FirstIndex(s, sep) == |pieces[0]|;
      assert s[|pieces[0]| + 1..] == rest;
      SplitJoin(pieces[1..], sep);
      assert pieces == [pieces[0]] + pieces[1..];
    }
  }

  /** JavaScript `s.split(sep, 2)`: the full split cut down to its first two pieces. */
  function SplitLimit2(s: string, sep: char): (parts: seq<string>)
    ensures |parts| == (if sep in s then 2 else 1)
    ensures parts[0] == Before(s, sep)
    ensures sep in s ==> parts[1] == Before(s[FirstIndex(s, sep) + 1..], sep)
  {
    var pieces := Split(s, sep);
    if sep in s then
      var rest := s[FirstIndex(s, sep) + 1..];
      assert pieces == [Before(s, sep)] + Split(rest, sep);
      assert Split(rest, sep)[0] == Before(rest, sep);
      pieces[..2]
    else pieces
  }

  /** `replace(/\+/g, " ")`: every `+` becomes a space. */
  function PlusToSpace(s: string): (r: string)
    ensures |r| == |s|
    ensures forall k :: 0 <= k < |s| ==> r[k] == (if s[k] == '+' then ' ' else s[k])
  {
    if |s| == 0 then "" else [if s[0] == '+' then ' ' else s[0]] + PlusToSpace(s[1..])
  }

  /** One `&`-separated segment read as a key and a value (lines 52-56). */
  function Entry(segment: string, decode: string -> string): (e: (string, string))
    ensures e.0 == Before(segment, '=')
    ensures '=' !in segment ==> e.1 == ""
  {
    var parts := SplitLimit2(segment, '=');
    if |parts| == 1 then (parts[0], "")
    else (parts[0], decode(PlusToSpace(parts[1])))
  }

  /** The text of `s` before the first `c`, or all of `s` when there is none. */
  function Before(s: string, c: char): (r: string)
    ensures r <= s && c !in r
    ensures r == s || s[|r|] == c
  {
    if c in s then s[..FirstIndex(s, c)] else s
  }

  /** What `Entry` means: a segment without `=` is a key with the empty value;
      otherwise the key is the text before the first `=` and the value is the
      decoded text between the first and the second `=` (or the end), with `+`
      read as a space. Whatever follows a second `=` is dropped. */
  lemma EntryMeaning(segment: string, decode: string -> string)
    ensures '=' !in segment ==> Entry(segment, decode) == (segment, "")
    ensures '=' in segment ==>
      var rest := segment[FirstIndex(segment, '=') + 1..];
      Entry(segment, decode) == (Before(segment, '='), decode(PlusToSpace(Before(rest, '='))))
  {
  }

  /** The key/value pair of every segment, in order. */
  function Entries(segments: seq<string>, decode: string -> string): (es: seq<(string, string)>)
    ensures |es| == |segments|
    ensures forall k :: 0 <= k < |segments| ==> es[k] == Entry(segments[k], decode)
  {
    seq(|segments|, k requires 0 <= k < |segments| => Entry(segments[k], decode))
  }

  /** The pairs written one after the other into a map, so a later key
      overwrites an earlier one (lines 51-57). */
  function Collect(entries: seq<(string, string)>): (q: map<string, string>)
    ensures Records(entries, q)
  {
    if |entries| == 0 then map[]
    else
      var prefix := entries[..|entries| - 1];
      var e := entries[|entries| - 1];
      CollectStep(prefix, e, Collect(prefix));
      assert prefix + [e] == entries;
      Collect(prefix)[e.0 := e.1]
  }

  /** `q` holds exactly the keys of `entries`, each with its last value. */
  ghost predicate Records(entries: seq<(string, string)>, q: map<string, string>)
  {
    && (forall key :: key in q <==> exists k :: 0 <= k < |entries| && entries[k].0 == key)
    && (forall key :: key in q ==> LastWrite(entries, key, q[key]))
  }

  /** Writing one more pair keeps `Records`. */
  lemma CollectStep(prefix: seq<(string, string)>, e: (string, string), q: map<string, string>)
    requires Records(prefix, q)
    ensures Records(prefix + [e], q[e.0 := e.1])
  {
    var entries := prefix + [e];
    var r := q[e.0 := e.1];
    assert forall k :: 0 <= k < |prefix| ==> entries[k] == prefix[k];
    assert entries[|prefix|] == e;
    forall key
      ensures key in r <==> exists k :: 0 <= k < |entries| && entries[k].0 == key
    {
      if key in r && key != e.0 {
        var k :| 0 <= k < |prefix| && prefix[k].0 == key;
        assert entries[k].0 == key;
      }
    }
    forall key | key in r
      ensures LastWrite(entries, key, r[key])
    {
      if key == e.0 {
        assert entries[|prefix|] == (key, r[key]);
      } else {
        var k :| 0 <= k < |prefix| && prefix[k] == (key, q[key])
          && forall l :: k < l < |prefix| ==> prefix[l].0 != key;
        assert entries[k] == (key, r[key]);
      }
    }
  }

  /** `(key, value)` is the last pair in `entries` whose key is `key`. */
  ghost predicate LastWrite(entries: seq<(string, string)>, key: string, value: string)
  {
    exists k :: 0 <= k < |entries| && entries[k] == (key, value)
      && forall l :: k < l < |entries| ==> entries[l].0 != key
  }

  /** `parse_query_string`: the query map for `window.location.search`. */
  function ParseQueryString(search: string, decode: string -> string): (q: map<string, string>)
    ensures Records(Entries(Split(DropFirst(search), '&'), decode), q)
  {
    Collect(Entries(Split(DropFirst(search), '&'), decode))
  }

  /** `query_string["network"]`, `undefined` when the key is absent (line 60). */
  function NetworkPath(query: map<string, string>): (path: Option<string>)
    ensures path.Some? <==> "network" in query
    ensures path.Some? ==> path.value == query["network"]
  {
    if "network" in query then Some(query["network"]) else None
  }

  datatype NetworkConfig = NetworkConfig(name: string, file: string)

  /** The networks the page offers (lines 5-10). */
  const Networks: seq<NetworkConfig> :=
    [NetworkConfig("Client A", "data/client1.json"), NetworkConfig("Client B", "data/client2.json")]

  /** `Array.prototype.find` on the configuration: the first network whose file
      equals the requested path; an absent path matches nothing. */
  function FindNetwork(configs: seq<NetworkConfig>, path: Option<string>): (r: Option<NetworkConfig>)
    ensures r.Some? <==> path.Some? && exists k :: 0 <= k < |configs| && configs[k].file == path.value
    ensures r.Some? ==>
      exists k :: 0 <= k < |configs| && configs[k] == r.value && r.value.file == path.value
        && forall l :: 0 <= l < k ==> configs[l].file != path.value
  {
    if |configs| == 0 || path.None? then None
    else if configs[0].file == path.value then Some(configs[0])
    else
      var r := FindNetwork(configs[1..], path);
      assert forall k :: 0 < k < |configs| ==> configs[k] == configs[1..][k - 1];
      r
  }

  /** `main`: the network that gets set up for a search string, if any
      (lines 37-44). */
  function Startup(search: string, decode: string -> string): (r: Option<NetworkConfig>)
    ensures r.Some? ==> r.value in Networks
    ensures r.Some? <==> var q := ParseQueryString(search, decode);
      "network" in q && exists k :: 0 <= k < |Networks| && Networks[k].file == q["network"]
  {
    FindNetwork(Networks, NetworkPath(ParseQueryString(search, decode)))
  }

  /** The last write of a key is unique, so it is what the map holds. */
  lemma LastWriteWins(entries: seq<(string, string)>, key: string, value: string)
    requires LastWrite(entries, key, value)
    ensures key in Collect(entries) && Collect(entries)[key] == value
  {
    var q := Collect(entries);
    var k :| 0 <= k < |entries| && entries[k] == (key, value)
      && forall l :: k < l < |entries| ==> entries[l].0 != key;
    assert entries[k].0 == key;
    LastWriteUnique(entries, key, value, q[key]);
  }

  lemma LastWriteUnique(entries: seq<(string, string)>, key: string, v1: string, v2: string)
    requires LastWrite(entries, key, v1) && LastWrite(entries, key, v2)
    ensures v1 == v2
  {
    var k1 :| 0 <= k1 < |entries| && entries[k1] == (key, v1)
      && forall l :: k1 < l < |entries| ==> entries[l].0 != key;
    var k2 :| 0 <= k2 < |entries| && entries[k2] == (key, v2)
      && forall l :: k2 < l < |entries| ==> entries[l].0 != key;
    assert entries[k1].0 == key && entries[k2].0 == key;
  }

  /** A network is set up exactly when the last `network` parameter decodes to
      one of the configured files, and the network is the one with that file. */
  lemma StartupChoosesLastNetworkParameter(search: string, decode: string -> string, value: string)
    requires LastWrite(Entries(Split(DropFirst(search), '&'), decode), "network", value)
    ensures Startup(search, decode).Some? <==> value in {"data/client1.json", "data/client2.json"}
    ensures Startup(search, decode).Some? ==> Startup(search, decode).value.file == value
  {
    LastWriteWins(Entries(Split(DropFirst(search), '&'), decode), "network", value);
    assert Networks[0].file == "data/client1.json";
    assert Networks[1].file == "data/client2.json";
  }

  /** Without a `network` parameter nothing is set up. */
  lemma NoNetworkParameterNoStartup(search: string, decode: string -> string)
    requires forall e :: e in Entries(Split(DropFirst(search), '&'), decode) ==> e.0 != "network"
    ensures Startup(search, decode) == None
  {
  }
}
