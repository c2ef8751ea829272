/** The per-protocol item dictionaries: which table file each protocol
    revision reads, how a table is validated, which dictionary a client's
    protocol uses, how players are grouped by that dictionary, and the
    lookup with its fallback to the current protocol. */
module Convert {
  import opened PhpArray
  import opened PhpString
  import opened JsonValue
  import opened ProtocolInfo
  import opened ItemTypes

  /** The `AssumptionFailedError("Invalid item list format")` thrown by `make`. */
  datatype Error = InvalidItemListFormat

  datatype Result<T> = Ok(value: T) | Err(error: Error)

  /** A connected player, reduced to an identity and the protocol number its
      network session reports. */
  datatype Player = Player(id: nat, protocolId: int)

  /** The singleton object: one dictionary per protocol number, in the order
      of the path table. `dictionaries` is also what `getDictionaries` returns. */
  datatype GlobalItemTypeDictionary = GlobalItemTypeDictionary(dictionaries: Assoc<int, ItemTypeDictionary>)

  // ---------------------------------------------------------------------
  // The path table

  /** The `PATHS` literal as written: protocol number and file-name suffix. */
  function PathsLiteral(c: Protocols): seq<(int, string)>
  {
    [ (c.current, ""),
      (c.p1_20_0, "-1.20.0"),
      (c.p1_19_80, "-1.19.80"),
      (c.p1_19_70, "-1.19.70"),
      (c.p1_19_63, "-1.19.63"),
      (c.p1_19_50, "-1.19.50"),
      (c.p1_19_40, "-1.19.40"),
      (c.p1_19_0, "-1.19.0"),
      (c.p1_18_30, "-1.18.30"),
      (c.p1_18_10, "-1.18.10") ]
  }

  /** The PHP array that literal denotes. */
  function Paths(c: Protocols): (r: Assoc<int, string>)
    ensures DistinctKeys(r)
    ensures forall p :: p in Keys(r) <==> p in Keys(PathsLiteral(c))
  {
    FromLiteral(PathsLiteral(c))
  }

  /** With distinct protocol numbers, the path table is the literal itself:
      ten protocols in declaration order, the current one with the empty
      suffix. */
  lemma PathsDeclared(c: Protocols)
    requires Ordered(c)
    ensures Paths(c) == PathsLiteral(c)
    ensures Keys(Paths(c)) == [c.current, c.p1_20_0, c.p1_19_80, c.p1_19_70, c.p1_19_63,
                               c.p1_19_50, c.p1_19_40, c.p1_19_0, c.p1_18_30, c.p1_18_10]
    ensures Find(Paths(c), c.current) == Some("")
  {
    var lit := PathsLiteral(c);
    assert forall i :: 0 < i < |lit| ==> lit[i - 1].0 > lit[i].0;
    DecreasingKeysDistinct(lit);
    FromDistinctLiteral(lit);
    FindAt(lit, 0);
  }

  /** Keys that strictly decrease along an array are all different. */
  lemma {:induction false} DecreasingKeysDistinct(a: seq<(int, string)>)
    requires forall i :: 0 < i < |a| ==> a[i - 1].0 > a[i].0
    ensures forall i, j :: 0 <= i < j < |a| ==> a[i].0 > a[j].0
    ensures DistinctKeys(a)
  {
    if |a| > 1 {
      DecreasingKeysDistinct(a[1..]);
      assert forall j :: 1 < j < |a| ==> a[1].0 > a[j].0 by {
        forall j | 1 < j < |a| ensures a[1].0 > a[j].0 {
          assert a[1..][0] == a[1] && a[1..][j - 1] == a[j];
        }
      }
      forall i, j | 0 <= i < j < |a| ensures a[i].0 > a[j].0 {
        if i > 0 {
          assert a[1..][i - 1] == a[i] && a[1..][j - 1] == a[j];
        }
      }
    }
  }

  /** Whatever the constants' values, the current protocol has a path. */
  lemma CurrentHasPath(c: Protocols)
    ensures c.current in Keys(Paths(c))
  {
    assert Keys(PathsLiteral(c))[0] == c.current;
  }

  /** `str_replace('.json', $path . '.json', REQUIRED_ITEM_LIST_JSON)`, with the
      base file name as a parameter. */
  function TablePath(base: string, suffix: string): (r: string)
    ensures !Occurs(base, ".json") ==> r == base
  {
    var r := ReplaceAll(base, ".json", suffix + ".json");
    if Occurs(base, ".json") then r
    else ReplaceAbsent(base, ".json", suffix + ".json"); r
  }

  /** The suffix is spliced in front of the extension. */
  lemma TablePathSplice(stem: string, suffix: string)
    requires !Occurs(stem, ".json")
    ensures TablePath(stem + ".json", suffix) == stem + suffix + ".json"
  {
    ReplaceExtension(stem, suffix + ".json");
  }

  /** The current protocol's empty suffix reads the base file itself. */
  lemma CurrentTablePath(base: string)
    ensures TablePath(base, "") == base
  {
    assert "" + ".json" == ".json";
    ReplaceBySelf(base, ".json");
  }

  // ---------------------------------------------------------------------
  // Table validation

  /** The row test of `make`: the entry is an array, its name a string, both
      fields set and not null, `component_based` a bool and `runtime_id` an int. */
  predicate ValidRow(name: Key, entry: Json)
  {
    && entry.Array?
    && name.StrKey?
    && IsSet(entry.entries, "component_based")
    && IsSet(entry.entries, "runtime_id")
    && Field(entry.entries, "component_based").Bool?
    && Field(entry.entries, "runtime_id").Int?
  }

  /** The entry built from a valid row. */
  function EntryOf(name: Key, entry: Json): ItemTypeEntry
    requires ValidRow(name, entry)
  {
    ItemTypeEntry(name.s, Field(entry.entries, "runtime_id").n, Field(entry.entries, "component_based").b)
  }

  /** A table `make` accepts: an array all of whose rows are valid. */
  predicate ValidTable(table: Json)
  {
    table.Array? && forall i :: 0 <= i < |table.entries| ==> ValidRow(table.entries[i].0, table.entries[i].1)
  }

  /** The entries of a valid table, one per row, in table order. */
  function TableEntries(table: Json): seq<ItemTypeEntry>
    requires ValidTable(table)
  {
    seq(|table.entries|, i requires 0 <= i < |table.entries| => EntryOf(table.entries[i].0, table.entries[i].1))
  }

  /** A valid table's entries copy each row's name, `runtime_id` and
      `component_based` unchanged. */
  lemma EntriesCopyRows(table: Json, i: nat)
    requires ValidTable(table) && i < |table.entries|
    ensures |TableEntries(table)| == |table.entries|
    ensures table.entries[i].0 == StrKey(TableEntries(table)[i].stringId)
    ensures Field(table.entries[i].1.entries, "runtime_id") == Int(TableEntries(table)[i].numericId)
    ensures Field(table.entries[i].1.entries, "component_based") == Bool(TableEntries(table)[i].componentBased)
  {
  }

  /** A table with a row that breaks any one of the row conditions is rejected. */
  lemma BadRowRejected(table: Json, i: nat)
    requires table.Array? && i < |table.entries|
    requires
      var (name, entry) := table.entries[i];
      || !entry.Array?
      || !name.StrKey?
      || Field(entry.entries, "component_based") == Null
      || Field(entry.entries, "runtime_id") == Null
      || !Field(entry.entries, "component_based").Bool?
      || !Field(entry.entries, "runtime_id").Int?
    ensures !ValidTable(table)
  {
  }

  /** One pass of `make` over a decoded table: reject a non-array, then walk
      the rows in order, failing on the first invalid one and otherwise
      collecting an entry per row. */
  method ReadItemList(table: Json) returns (r: Result<seq<ItemTypeEntry>>)
    ensures r.Ok? <==> ValidTable(table)
    ensures r.Ok? ==> r.value == TableEntries(table)
  {
    if !table.Array? {
      return Err(InvalidItemListFormat);
    }
    var rows := table.entries;
    var params: seq<ItemTypeEntry> := [];
    for n := 0 to |rows|
      invariant |params| == n
      invariant forall i :: 0 <= i < n ==> ValidRow(rows[i].0, rows[i].1)
      invariant forall i :: 0 <= i < n ==> params[i] == EntryOf(rows[i].0, rows[i].1)
    {
      var (name, entry) := rows[n];
      if !ValidRow(name, entry) {
        assert !ValidRow(table.entries[n].0, table.entries[n].1);
        return Err(InvalidItemListFormat);
      }
      ghost var before := params;
      params := params + [EntryOf(name, entry)];
      assert forall i :: 0 <= i < n ==> params[i] == before[i];
      assert params[n] == EntryOf(rows[n].0, rows[n].1);
    }
    assert ValidTable(table);
    assert params == TableEntries(table);
    return Ok(params);
  }

  /** The decoded table that entry `i` of a path table reads. */
  function TableAt(paths: Assoc<int, string>, base: string, read: string -> Json, i: nat): Json
    requires i < |paths|
  {
    read(TablePath(base, paths[i].1))
  }

  predicate AllTablesValid(paths: Assoc<int, string>, base: string, read: string -> Json)
  {
    forall i :: 0 <= i < |paths| ==> ValidTable(TableAt(paths, base, read, i))
  }

  /** `g` holds, for each entry of the path table and in its order, the
      protocol number and the dictionary of that protocol's table. */
  predicate BuiltFrom(paths: Assoc<int, string>, base: string, read: string -> Json, g: GlobalItemTypeDictionary)
  {
    && AllTablesValid(paths, base, read)
    && |g.dictionaries| == |paths|
    && forall i :: 0 <= i < |paths| ==>
         g.dictionaries[i] == (paths[i].0, ItemTypeDictionary(TableEntries(TableAt(paths, base, read, i))))
  }

  /** The loop of `make` over a path table: read each protocol's table in
      order; the first invalid table aborts the whole construction. */
  method LoadDictionaries(paths: Assoc<int, string>, base: string, read: string -> Json)
    returns (r: Result<GlobalItemTypeDictionary>)
    requires DistinctKeys(paths)
    ensures r.Ok? <==> AllTablesValid(paths, base, read)
    ensures r.Ok? ==> BuiltFrom(paths, base, read, r.value)
  {
    var dictionaries: Assoc<int, ItemTypeDictionary> := [];
    for n := 0 to |paths|
      invariant |dictionaries| == n
      invariant forall i :: 0 <= i < n ==> ValidTable(TableAt(paths, base, read, i))
      invariant forall i :: 0 <= i < n ==>
        dictionaries[i] == (paths[i].0, ItemTypeDictionary(TableEntries(TableAt(paths, base, read, i))))
    {
      var (protocolId, path) := paths[n];
      var table := read(TablePath(base, path));
      var params := ReadItemList(table);
      if params.Err? {
        assert !ValidTable(TableAt(paths, base, read, n));
        return Err(params.error);
      }
      assert protocolId !in Keys(dictionaries) by {
        assert forall i :: 0 <= i < n ==> Keys(dictionaries)[i] != paths[n].0;
      }
      dictionaries := Set(dictionaries, protocolId, ItemTypeDictionary(params.value));
    }
    return Ok(GlobalItemTypeDictionary(dictionaries));
  }

  /** `make`: build the dictionaries of the `PATHS` table. `read` stands for
      reading a file and decoding it with json_decode, `base` for the item
      list file name. */
  method Make(c: Protocols, base: string, read: string -> Json) returns (r: Result<GlobalItemTypeDictionary>)
    ensures r.Ok? <==> AllTablesValid(Paths(c), base, read)
    ensures r.Ok? ==> BuiltFrom(Paths(c), base, read, r.value)
  {
    r := LoadDictionaries(Paths(c), base, read);
  }

  // ---------------------------------------------------------------------
  // Which dictionary a protocol uses

  /** `getDictionaryProtocol`: 1.19.60 uses the 1.19.63 table, protocols from
      1.19.10 up to (not including) 1.19.40 use the 1.19.40 table, and every
      other protocol uses its own number. */
  function DictionaryProtocol(c: Protocols, protocolId: int): (r: int)
    ensures r == protocolId || r == c.p1_19_63 || r == c.p1_19_40
    ensures r != protocolId ==> protocolId == c.p1_19_60 || c.p1_19_10 <= protocolId < c.p1_19_40
  {
    if protocolId == c.p1_19_60 then c.p1_19_63
    else if c.p1_19_10 <= protocolId < c.p1_19_40 then c.p1_19_40
    else protocolId
  }

  /** The override is tested first, so it wins even where the range would apply. */
  lemma OverrideFirst(c: Protocols)
    ensures DictionaryProtocol(c, c.p1_19_60) == c.p1_19_63
  {
  }

  lemma RangeRule(c: Protocols, p: int)
    requires c.p1_19_10 <= p < c.p1_19_40 && p != c.p1_19_60
    ensures DictionaryProtocol(c, p) == c.p1_19_40
  {
  }

  lemma IdentityRule(c: Protocols, p: int)
    requires p != c.p1_19_60 && !(c.p1_19_10 <= p < c.p1_19_40)
    ensures DictionaryProtocol(c, p) == p
  {
  }

  /** Resolving twice is resolving once, provided the two targets are left
      alone by the rules. */
  lemma Idempotent(c: Protocols, p: int)
    requires c.p1_19_63 != c.p1_19_60 && !(c.p1_19_10 <= c.p1_19_63 < c.p1_19_40)
    requires c.p1_19_40 != c.p1_19_60
    ensures DictionaryProtocol(c, DictionaryProtocol(c, p)) == DictionaryProtocol(c, p)
  {
  }

  /** Exactly the protocols from 1.19.10 to 1.19.40 inclusive share the 1.19.40 table. */
  lemma SharesTable1_19_40(c: Protocols, p: int)
    requires Ordered(c)
    ensures DictionaryProtocol(c, p) == c.p1_19_40 <==> c.p1_19_10 <= p <= c.p1_19_40
  {
  }

  /** Exactly 1.19.60 and 1.19.63 share the 1.19.63 table. */
  lemma SharesTable1_19_63(c: Protocols, p: int)
    requires Ordered(c)
    ensures DictionaryProtocol(c, p) == c.p1_19_63 <==> p == c.p1_19_60 || p == c.p1_19_63
  {
  }

  /** Every protocol with a table of its own uses that table. */
  lemma DeclaredUseOwnTable(c: Protocols, i: nat)
    requires Ordered(c) && i < |Paths(c)|
    ensures DictionaryProtocol(c, Paths(c)[i].0) == Paths(c)[i].0
  {
    PathsDeclared(c);
  }

  /** A protocol the rules redirect is redirected to one that has a table. */
  lemma AliasesHaveTable(c: Protocols, p: int)
    requires Ordered(c) && DictionaryProtocol(c, p) != p
    ensures DictionaryProtocol(c, p) in Keys(Paths(c))
  {
    PathsDeclared(c);
    assert Keys(Paths(c))[4] == c.p1_19_63 && Keys(Paths(c))[6] == c.p1_19_40;
  }

  // ---------------------------------------------------------------------
  // Grouping players by dictionary protocol

  /** The dictionary protocols of `players`, each once, in order of first appearance. */
  function FirstAppearances(c: Protocols, players: seq<Player>): (ks: seq<int>)
    ensures forall i, j :: 0 <= i < j < |ks| ==> ks[i] != ks[j]
    ensures forall k :: k in ks <==>
      exists j :: 0 <= j < |players| && DictionaryProtocol(c, players[j].protocolId) == k
  {
    if players == [] then []
    else
      var prefix := players[..|players| - 1];
      var last := players[|players| - 1];
      var ks := FirstAppearances(c, prefix);
      var k := DictionaryProtocol(c, last.protocolId);
      assert forall j :: 0 <= j < |prefix| ==> prefix[j] == players[j];
      if k in ks then ks else ks + [k]
  }

  /** The players whose dictionary protocol is `k`, in input order. */
  function Members(c: Protocols, players: seq<Player>, k: int): seq<Player>
  {
    if players == [] then []
    else
      var last := players[|players| - 1];
      Members(c, players[..|players| - 1], k)
        + (if DictionaryProtocol(c, last.protocolId) == k then [last] else [])
  }

  /** Where the players of group `k` stand in the input: one strictly
      increasing position per member, so a group keeps its players'
      relative input order. */
  function MemberPositions(c: Protocols, players: seq<Player>, k: int): (ix: seq<nat>)
    ensures |ix| == |Members(c, players, k)|
    ensures forall m :: 0 <= m < |ix| ==> ix[m] < |players| && players[ix[m]] == Members(c, players, k)[m]
    ensures forall m, m' :: 0 <= m < m' < |ix| ==> ix[m] < ix[m']
  {
    if players == [] then []
    else
      var n := |players| - 1;
      var prefix := players[..n];
      var ix := MemberPositions(c, prefix, k);
      if DictionaryProtocol(c, players[n].protocolId) == k then
        assert Members(c, players, k) == Members(c, prefix, k) + [players[n]];
        ix + [n]
      else
        assert Members(c, players, k) == Members(c, prefix, k);
        ix
  }

  /** The positions of group `k` are exactly those of the players resolving to `k`. */
  lemma {:induction false} MemberPositionsExact(c: Protocols, players: seq<Player>, k: int, j: nat)
    requires j < |players|
    ensures j in MemberPositions(c, players, k) <==> DictionaryProtocol(c, players[j].protocolId) == k
  {
    var n := |players| - 1;
    var prefix := players[..n];
    var ix := MemberPositions(c, prefix, k);
    assert forall m :: 0 <= m < |ix| ==> ix[m] < n;
    if j < n {
      assert prefix[j] == players[j];
      MemberPositionsExact(c, prefix, k, j);
    }
  }

  /** The groups laid end to end. */
  function Flatten(groups: Assoc<int, seq<Player>>): seq<Player>
  {
    if groups == [] then [] else groups[0].1 + Flatten(groups[1..])
  }

  lemma {:induction false} FlattenAppend(groups: Assoc<int, seq<Player>>, g: (int, seq<Player>))
    ensures Flatten(groups + [g]) == Flatten(groups) + g.1
  {
    if groups != [] {
      assert (groups + [g])[1..] == groups[1..] + [g];
      FlattenAppend(groups[1..], g);
    }
  }

  lemma {:induction false} FlattenGrow(groups: Assoc<int, seq<Player>>, i: nat, p: Player)
    requires i < |groups|
    ensures multiset(Flatten(groups[i := (groups[i].0, groups[i].1 + [p])]))
         == multiset(Flatten(groups)) + multiset{p}
  {
    var grown := groups[i := (groups[i].0, groups[i].1 + [p])];
    if i == 0 {
      assert grown[1..] == groups[1..];
    } else {
      assert grown[1..] == groups[1..][i - 1 := (groups[i].0, groups[i].1 + [p])];
      FlattenGrow(groups[1..], i - 1, p);
    }
  }

  /** `groups` is the grouping of `players`: its keys are their dictionary
      protocols in first-appearance order, each group holds exactly the
      players of its key in input order, and the groups together hold the
      input players. */
  predicate Grouped(c: Protocols, players: seq<Player>, groups: Assoc<int, seq<Player>>)
  {
    && Keys(groups) == FirstAppearances(c, players)
    && (forall i :: 0 <= i < |groups| ==> groups[i].1 == Members(c, players, groups[i].0))
    && multiset(Flatten(groups)) == multiset(players)
  }

  /** The loop step of `sortByProtocol` when the player's key already has a group. */
  lemma GroupedExtend(c: Protocols, players: seq<Player>, groups: Assoc<int, seq<Player>>, p: Player)
    requires Grouped(c, players, groups)
    requires DictionaryProtocol(c, p.protocolId) in Keys(groups)
    ensures
      var k := DictionaryProtocol(c, p.protocolId);
      Grouped(c, players + [p], Set(groups, k, groups[IndexOf(groups, k)].1 + [p]))
  {
    var k := DictionaryProtocol(c, p.protocolId);
    var i := IndexOf(groups, k);
    var grown := Set(groups, k, groups[i].1 + [p]);
    var all := players + [p];
    assert all[..|all| - 1] == players;
    assert DistinctKeys(groups) by {
      assert forall j :: 0 <= j < |groups| ==> Keys(groups)[j] == groups[j].0;
    }
    assert Keys(grown) == FirstAppearances(c, all);
    forall j | 0 <= j < |grown| ensures grown[j].1 == Members(c, all, grown[j].0) {
      if j != i {
        assert groups[j].0 != k;
      }
    }
    FlattenGrow(groups, i, p);
    assert grown == groups[i := (groups[i].0, groups[i].1 + [p])];
  }

  /** The loop step of `sortByProtocol` when the player's key is new. */
  lemma GroupedAppend(c: Protocols, players: seq<Player>, groups: Assoc<int, seq<Player>>, p: Player)
    requires Grouped(c, players, groups)
    requires DictionaryProtocol(c, p.protocolId) !in Keys(groups)
    ensures Grouped(c, players + [p], Set(groups, DictionaryProtocol(c, p.protocolId), [p]))
  {
    var k := DictionaryProtocol(c, p.protocolId);
    var grown := Set(groups, k, [p]);
    var all := players + [p];
    assert all[..|all| - 1] == players;
    assert Members(c, players, k) == [] by {
      if Members(c, players, k) != [] {
        MembersResolve(c, players, k, Members(c, players, k)[0]);
        MembersOccur(c, players, k, Members(c, players, k)[0]);
      }
    }
    forall j | 0 <= j < |grown| ensures grown[j].1 == Members(c, all, grown[j].0) {
      if j < |groups| {
        assert Keys(groups)[j] == groups[j].0;
      }
    }
    FlattenAppend(groups, (k, [p]));
  }

  /** `sortByProtocol`: one group per dictionary protocol, keyed in order of
      first appearance, each holding that protocol's players in input order;
      together the groups hold exactly the input players. */
  method SortByProtocol(c: Protocols, players: seq<Player>) returns (sortPlayers: Assoc<int, seq<Player>>)
    ensures Keys(sortPlayers) == FirstAppearances(c, players)
    ensures forall i :: 0 <= i < |sortPlayers| ==> sortPlayers[i].1 == Members(c, players, sortPlayers[i].0)
    ensures multiset(Flatten(sortPlayers)) == multiset(players)
    ensures |Flatten(sortPlayers)| == |players|
  {
    sortPlayers := [];
    for n := 0 to |players|
      invariant Grouped(c, players[..n], sortPlayers)
    {
      var player := players[n];
      var dictionaryProtocol := DictionaryProtocol(c, player.protocolId);
      assert players[..n + 1] == players[..n] + [player];
      FindFirst(sortPlayers, dictionaryProtocol);
      match Find(sortPlayers, dictionaryProtocol)
      case Some(group) =>
        assert DistinctKeys(sortPlayers) by {
          assert forall j :: 0 <= j < |sortPlayers| ==> Keys(sortPlayers)[j] == sortPlayers[j].0;
        }
        FindAt(sortPlayers, IndexOf(sortPlayers, dictionaryProtocol));
        GroupedExtend(c, players[..n], sortPlayers, player);
        sortPlayers := Set(sortPlayers, dictionaryProtocol, group + [player]);
      case None =>
        GroupedAppend(c, players[..n], sortPlayers, player);
        sortPlayers := Set(sortPlayers, dictionaryProtocol, [player]);
    }
    assert players[..|players|] == players;
    assert |multiset(Flatten(sortPlayers))| == |players|;
  }

  /** A key is created only for a player that resolves to it, so no group is empty. */
  lemma {:induction false} GroupsNonEmpty(c: Protocols, players: seq<Player>, k: int)
    requires k in FirstAppearances(c, players)
    ensures Members(c, players, k) != []
  {
    var prefix := players[..|players| - 1];
    var last := players[|players| - 1];
    if DictionaryProtocol(c, last.protocolId) != k {
      GroupsNonEmpty(c, prefix, k);
    }
  }

  /** Every player of a group resolves to the group's key. */
  lemma {:induction false} MembersResolve(c: Protocols, players: seq<Player>, k: int, p: Player)
    requires p in Members(c, players, k)
    ensures DictionaryProtocol(c, p.protocolId) == k
  {
    var last := players[|players| - 1];
    if p !in Members(c, players[..|players| - 1], k) {
      assert p == last;
    } else {
      MembersResolve(c, players[..|players| - 1], k, p);
    }
  }

  /** Every player of a group is one of the input players. */
  lemma {:induction false} MembersOccur(c: Protocols, players: seq<Player>, k: int, p: Player)
    requires p in Members(c, players, k)
    ensures exists j :: 0 <= j < |players| && players[j] == p
  {
    var prefix := players[..|players| - 1];
    if p !in Members(c, prefix, k) {
      assert players[|players| - 1] == p;
    } else {
      MembersOccur(c, prefix, k, p);
      var j :| 0 <= j < |prefix| && prefix[j] == p;
      assert players[j] == p;
    }
  }

  /** Every player lands in the group of its own dictionary protocol. */
  lemma {:induction false} InOwnGroup(c: Protocols, players: seq<Player>, j: nat)
    requires j < |players|
    ensures players[j] in Members(c, players, DictionaryProtocol(c, players[j].protocolId))
  {
    var prefix := players[..|players| - 1];
    if j < |players| - 1 {
      assert prefix[j] == players[j];
      InOwnGroup(c, prefix, j);
    }
  }

  // ---------------------------------------------------------------------
  // Lookup

  /** `getDictionary`: the dictionary of `dictionaryId`, or the current
      protocol's when that id has none; `None` stands for the error PHP raises
      when neither key is present. The id defaults to the current protocol. */
  function GetDictionary(c: Protocols, g: GlobalItemTypeDictionary, dictionaryId: int := c.current): (r: Option<ItemTypeDictionary>)
    ensures dictionaryId in Keys(g.dictionaries) ==> r == Find(g.dictionaries, dictionaryId)
    ensures dictionaryId !in Keys(g.dictionaries) ==> r == Find(g.dictionaries, c.current)
    ensures r.None? <==> dictionaryId !in Keys(g.dictionaries) && c.current !in Keys(g.dictionaries)
  {
    FindFirst(g.dictionaries, dictionaryId);
    FindFirst(g.dictionaries, c.current);
    match Find(g.dictionaries, dictionaryId)
    case Some(d) => Some(d)
    case None => Find(g.dictionaries, c.current)
  }

  /** After a successful `make`, a lookup never fails. */
  lemma LookupNeverFails(c: Protocols, base: string, read: string -> Json, g: GlobalItemTypeDictionary, id: int)
    requires BuiltFrom(Paths(c), base, read, g)
    ensures GetDictionary(c, g, id).Some?
  {
    CurrentHasPath(c);
    assert Keys(g.dictionaries) == Keys(Paths(c));
  }

  /** The dictionary of the table read for `suffix`. */
  function DictionaryFor(base: string, read: string -> Json, suffix: string): ItemTypeDictionary
    requires ValidTable(read(TablePath(base, suffix)))
  {
    ItemTypeDictionary(TableEntries(read(TablePath(base, suffix))))
  }

  /** Looking up the dictionary protocol of a protocol with a table of its
      own yields that protocol's table. */
  lemma LookupDeclared(c: Protocols, base: string, read: string -> Json, g: GlobalItemTypeDictionary, i: nat)
    requires Ordered(c) && BuiltFrom(Paths(c), base, read, g) && i < |Paths(c)|
    ensures ValidTable(read(TablePath(base, Paths(c)[i].1)))
    ensures GetDictionary(c, g, DictionaryProtocol(c, Paths(c)[i].0)) == Some(DictionaryFor(base, read, Paths(c)[i].1))
  {
    DeclaredUseOwnTable(c, i);
    PathsDeclared(c);
    assert DistinctKeys(g.dictionaries) by {
      assert forall j :: 0 <= j < |g.dictionaries| ==> g.dictionaries[j].0 == PathsLiteral(c)[j].0;
    }
    FindAt(g.dictionaries, i);
  }

  /** A 1.19.60 client is served the table read from the "-1.19.63" file. */
  lemma Lookup1_19_60(c: Protocols, base: string, read: string -> Json, g: GlobalItemTypeDictionary)
    requires Ordered(c) && BuiltFrom(Paths(c), base, read, g)
    ensures ValidTable(read(TablePath(base, "-1.19.63")))
    ensures GetDictionary(c, g, DictionaryProtocol(c, c.p1_19_60)) == Some(DictionaryFor(base, read, "-1.19.63"))
  {
    PathsDeclared(c);
    LookupDeclared(c, base, read, g, 4);
  }

  /** A client from 1.19.10 up to (not including) 1.19.40 is served the table
      read from the "-1.19.40" file. */
  lemma LookupBefore1_19_40(c: Protocols, base: string, read: string -> Json, g: GlobalItemTypeDictionary, p: int)
    requires Ordered(c) && BuiltFrom(Paths(c), base, read, g)
    requires c.p1_19_10 <= p < c.p1_19_40
    ensures ValidTable(read(TablePath(base, "-1.19.40")))
    ensures GetDictionary(c, g, DictionaryProtocol(c, p)) == Some(DictionaryFor(base, read, "-1.19.40"))
  {
    PathsDeclared(c);
    LookupDeclared(c, base, read, g, 6);
  }

  /** A client whose dictionary protocol has no table is served the current
      protocol's table, read from the base file itself. */
  lemma LookupUnknown(c: Protocols, base: string, read: string -> Json, g: GlobalItemTypeDictionary, p: int)
    requires Ordered(c) && BuiltFrom(Paths(c), base, read, g)
    requires DictionaryProtocol(c, p) !in Keys(Paths(c))
    ensures TablePath(base, "") == base
    ensures ValidTable(read(TablePath(base, "")))
    ensures GetDictionary(c, g, DictionaryProtocol(c, p)) == Some(DictionaryFor(base, read, ""))
  {
    PathsDeclared(c);
    CurrentTablePath(base);
    LookupDeclared(c, base, read, g, 0);
    assert Keys(g.dictionaries) == Keys(Paths(c));
  }
}
