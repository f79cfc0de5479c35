/**
 * Data tiers: the five tier names, the frozen-to-hot preference chain, the
 * parsing of comma-separated tier lists, the tier-preference validators, the
 * default tier-preference provider and the node-role predicates.
 *
 * Settings are plain maps: index settings map a key to a value, `None`
 * standing for a key explicitly set to null; node settings map a key to its
 * list of values. Node roles are the set of their role names.
 */
module DataTier {
  import opened Wrappers

  const DataContent: string := "data_content"
  const DataHot: string := "data_hot"
  const DataWarm: string := "data_warm"
  const DataCold: string := "data_cold"
  const DataFrozen: string := "data_frozen"

  const AllDataTiers: set<string> := {DataContent, DataHot, DataWarm, DataCold, DataFrozen}

  /** The index setting that holds an index's tier preference. */
  const TierPreference: string := "index.routing.allocation.include._tier_preference"

  /** The tiers from frozen to hot (slow to fast); content is not among them. */
  const OrderedFrozenToHot: seq<string> := [DataFrozen, DataCold, DataWarm, DataHot]

  /** The name of the generic data role, which counts for every tier. */
  const DataRole: string := "data"

  /** The node setting that lists a node's roles. */
  const NodeRoles: string := "node.roles"

  predicate ValidTierName(tierName: string)
  {
    tierName in AllDataTiers
  }

  // ---------------------------------------------------------------------
  // Strings
  // ---------------------------------------------------------------------

  /** `s` occurs in `str` at position `i`. */
  predicate OccursAt(str: string, s: string, i: int)
  {
    0 <= i && i + |s| <= |str| && str[i..i + |s|] == s
  }

  /** Java's `contains`: `s` occurs in `str` at some position. */
  predicate Contains(str: string, s: string)
  {
    exists i :: 0 <= i <= |str| && OccursAt(str, s, i)
  }

  predicate StartsWith(str: string, prefix: string)
  {
    |prefix| <= |str| && str[..|prefix|] == prefix
  }

  /** The characters for which Java's `Character.isWhitespace` holds. */
  predicate IsWhitespace(c: char)
  {
    || c == ' ' || c == '\t' || c == '\n' || c == '\U{B}' || c == '\U{C}' || c == '\r'
    || ('\U{1C}' <= c <= '\U{1F}')
    || c == '\U{1680}' || ('\U{2000}' <= c <= '\U{2006}') || ('\U{2008}' <= c <= '\U{200A}')
    || c == '\U{2028}' || c == '\U{2029}' || c == '\U{205F}' || c == '\U{3000}'
  }

  /** A non-null string with some character that is not whitespace. */
  predicate HasText(str: Option<string>)
  {
    str.Some? && exists i :: 0 <= i < |str.value| && !IsWhitespace(str.value[i])
  }

  /** The strings joined with a comma between each two. */
  function Join(parts: seq<string>): string
  {
    if |parts| == 0 then ""
    else if |parts| == 1 then parts[0]
    else parts[0] + "," + Join(parts[1..])
  }

  /** The pieces between the commas of `str`, empty ones included: one more
      piece than there are commas. */
  function Pieces(str: string): (pieces: seq<string>)
    ensures |pieces| >= 1
  {
    if |str| == 0 then [""]
    else if str[0] == ',' then [""] + Pieces(str[1..])
    else var rest := Pieces(str[1..]); [[str[0]] + rest[0]] + rest[1..]
  }

  function DropTrailingEmpty(pieces: seq<string>): (r: seq<string>)
    ensures |r| <= |pieces| && r == pieces[..|r|]
    ensures |r| > 0 ==> r[|r| - 1] != ""
    ensures forall i :: |r| <= i < |pieces| ==> pieces[i] == ""
  {
    if |pieces| > 0 && pieces[|pieces| - 1] == "" then DropTrailingEmpty(pieces[..|pieces| - 1]) else pieces
  }

  /** Java's `split(",")`: the string itself when it has no comma, else its
      pieces without the trailing empty ones. */
  function Split(str: string): seq<string>
  {
    if ',' !in str then [str] else DropTrailingEmpty(Pieces(str))
  }

  // ---------------------------------------------------------------------
  // Joining and splitting
  // ---------------------------------------------------------------------

  lemma {:induction false} PiecesPrefix(p: string, rest: string)
    requires ',' !in p
    ensures Pieces(p + rest) == [p + Pieces(rest)[0]] + Pieces(rest)[1..]
  {
    if |p| > 0 {
      PiecesPrefix(p[1..], rest);
      assert (p + rest)[1..] == p[1..] + rest;
      assert [p[0]] + (p[1..] + Pieces(rest)[0]) == p + Pieces(rest)[0];
    } else {
      var r := Pieces(rest);
      assert p + rest == rest;
      assert p + r[0] == r[0];
      assert [r[0]] + r[1..] == r;
    }
  }

  /** Cutting a join of comma-free parts at its commas gives the parts back. */
  lemma {:induction false} PiecesJoin(parts: seq<string>)
    requires |parts| > 0
    requires forall i :: 0 <= i < |parts| ==> ',' !in parts[i]
    ensures Pieces(Join(parts)) == parts
  {
    if |parts| > 1 {
      var rest := Join(parts[1..]);
      PiecesJoin(parts[1..]);
      assert Join(parts) == parts[0] + ("," + rest);
      PiecesPrefix(parts[0], "," + rest);
      assert ("," + rest)[1..] == rest;
      assert Pieces("," + rest) == [""] + parts[1..];
      assert parts[0] + "" == parts[0];
      assert parts == [parts[0]] + parts[1..];
    } else {
      PiecesPrefix(parts[0], "");
      assert parts[0] + "" == parts[0];
    }
  }

  lemma {:induction false} JoinCommas(parts: seq<string>)
    requires forall i :: 0 <= i < |parts| ==> ',' !in parts[i]
    ensures ',' in Join(parts) <==> |parts| > 1
  {
    if |parts| > 1 {
      assert Join(parts)[|parts[0]|] == ',';
    }
  }

  /** Java's split undoes the join of non-empty comma-free parts. */
  lemma SplitJoin(parts: seq<string>)
    requires |parts| > 0
    requires forall i :: 0 <= i < |parts| ==> ',' !in parts[i] && parts[i] != ""
    ensures Split(Join(parts)) == parts
  {
    JoinCommas(parts);
    if |parts| > 1 {
      PiecesJoin(parts);
    }
  }

  lemma {:induction false} JoinStartsWith(parts: seq<string>)
    requires |parts| > 0
    ensures StartsWith(Join(parts), parts[0])
  {
    if |parts| > 1 {
      assert parts[0] + "," + Join(parts[1..]) == parts[0] + ("," + Join(parts[1..]));
    }
  }

  /** A non-empty string occurs in a join across a comma or inside one of
      the parts. */
  lemma {:induction false} ContainsJoin(parts: seq<string>, s: string)
    requires |s| > 0
    ensures Contains(Join(parts), s) ==> ',' in s || exists j :: 0 <= j < |parts| && Contains(parts[j], s)
  {
    var str := Join(parts);
    if !Contains(str, s) {
    } else if |parts| == 1 {
      assert Contains(parts[0], s);
    } else {
      var i :| 0 <= i <= |str| && OccursAt(str, s, i);
      var p, rest := parts[0], Join(parts[1..]);
      assert str == p + "," + rest;
      if i + |s| <= |p| {
        assert str[i..i + |s|] == p[i..i + |s|];
        assert OccursAt(parts[0], s, i);
      } else if i > |p| {
        var k := i - |p| - 1;
        assert str[i..i + |s|] == rest[k..k + |s|];
        assert OccursAt(rest, s, k);
        ContainsJoin(parts[1..], s);
        if ',' !in s {
          var j :| 0 <= j < |parts[1..]| && Contains(parts[1..][j], s);
          assert parts[j + 1] == parts[1..][j];
        }
      } else {
        assert s[|p| - i] == str[|p|] == ',';
      }
    }
  }

  // ---------------------------------------------------------------------
  // Preference chain
  // ---------------------------------------------------------------------

  /** The table built by the static initialiser: each tier of `ordered`
      from position `i` on maps to the comma-join of the list from it on. */
  function PreferenceTable(ordered: seq<string>, i: nat): map<string, string>
    decreases |ordered| - i
  {
    if i >= |ordered| then map[] else PreferenceTable(ordered, i + 1)[ordered[i] := Join(ordered[i..])]
  }

  /** The table holds exactly the tiers from position `i` on. */
  lemma {:induction false} PreferenceTableKeys(ordered: seq<string>, i: nat)
    requires i <= |ordered|
    ensures forall t :: t in PreferenceTable(ordered, i) <==> t in ordered[i..]
    decreases |ordered| - i
  {
    if i < |ordered| {
      PreferenceTableKeys(ordered, i + 1);
      assert ordered[i..] == [ordered[i]] + ordered[i + 1..];
    }
  }

  /** With distinct tiers, each tier from position `i` on maps to the join
      of the list from its own position. */
  lemma {:induction false} PreferenceTableValue(ordered: seq<string>, i: nat, j: nat)
    requires i <= j < |ordered|
    requires forall a, b :: 0 <= a < b < |ordered| ==> ordered[a] != ordered[b]
    ensures ordered[j] in PreferenceTable(ordered, i)
    ensures PreferenceTable(ordered, i)[ordered[j]] == Join(ordered[j..])
    decreases |ordered| - i
  {
    if i < j {
      PreferenceTableValue(ordered, i + 1, j);
    }
  }

  const PreferenceTierConfigurations: map<string, string> := PreferenceTable(OrderedFrozenToHot, 0)

  /** The comma-separated tiers to prefer for a target tier, or the error
      for a tier without a preference chain. */
  function GetPreferredTiersConfiguration(targetTier: string): Result<string, string>
  {
    if targetTier in PreferenceTierConfigurations then Success(PreferenceTierConfigurations[targetTier])
    else Failure("invalid data tier [" + targetTier + "]")
  }

  /** The same preference as index settings holding it under the
      tier-preference key. */
  function GetPreferredTiersConfigurationSettings(targetTier: string): Result<map<string, Option<string>>, string>
  {
    if targetTier in PreferenceTierConfigurations then Success(map[TierPreference := Some(PreferenceTierConfigurations[targetTier])])
    else Failure("invalid data tier [" + targetTier + "]")
  }

  lemma OrderedDistinct()
    ensures forall j, k :: 0 <= j < k < |OrderedFrozenToHot| ==> OrderedFrozenToHot[j] != OrderedFrozenToHot[k]
  {
    assert DataCold[5] != DataWarm[5];
  }

  /** A tier of the frozen-to-hot list yields the join of the list from that
      tier on; every other name, content included, is an error. */
  lemma PreferredTiers(targetTier: string)
    ensures var r := GetPreferredTiersConfiguration(targetTier);
            && (r.Success? <==> targetTier in OrderedFrozenToHot)
            && forall i :: 0 <= i < |OrderedFrozenToHot| && OrderedFrozenToHot[i] == targetTier ==>
                 r == Success(Join(OrderedFrozenToHot[i..]))
  {
    OrderedDistinct();
    PreferenceTableKeys(OrderedFrozenToHot, 0);
    forall j | 0 <= j < |OrderedFrozenToHot|
      ensures PreferenceTierConfigurations[OrderedFrozenToHot[j]] == Join(OrderedFrozenToHot[j..])
    {
      PreferenceTableValue(OrderedFrozenToHot, 0, j);
    }
    assert OrderedFrozenToHot[0..] == OrderedFrozenToHot;
  }

  lemma JoinColdWarmHot()
    ensures Join([DataCold, DataWarm, DataHot]) == "data_cold,data_warm,data_hot"
  {
    var parts := [DataCold, DataWarm, DataHot];
    assert parts[1..][1..] == [DataHot];
    assert Join(parts[1..]) == "data_warm,data_hot";
  }

  lemma PreferredColdExample()
    ensures GetPreferredTiersConfiguration(DataCold) == Success("data_cold,data_warm,data_hot")
  {
    OrderedDistinct();
    PreferenceTableValue(OrderedFrozenToHot, 0, 1);
    assert OrderedFrozenToHot[1..] == [DataCold, DataWarm, DataHot];
    JoinColdWarmHot();
  }

  lemma ContentHasNoPreference()
    ensures GetPreferredTiersConfiguration(DataContent).Failure?
  {
    PreferredTiers(DataContent);
    assert DataContent !in OrderedFrozenToHot;
  }

  /** The settings variant succeeds for the same tiers, holding exactly the
      same preference. */
  lemma PreferredSettings(targetTier: string)
    ensures GetPreferredTiersConfigurationSettings(targetTier).Success?
            <==> GetPreferredTiersConfiguration(targetTier).Success?
    ensures GetPreferredTiersConfigurationSettings(targetTier).Success? ==>
              GetPreferredTiersConfigurationSettings(targetTier).value
                == map[TierPreference := Some(GetPreferredTiersConfiguration(targetTier).value)]
  {
  }

  // ---------------------------------------------------------------------
  // Tier lists
  // ---------------------------------------------------------------------

  /** The tiers of a comma-separated list; none for a null or blank list. */
  function ParseTierList(tiers: Option<string>): seq<string>
  {
    if !HasText(tiers) then [] else Split(tiers.value)
  }

  /** The tiers from frozen to hot, from position `i` on. */
  function Suffix(i: nat): seq<string>
    requires i < |OrderedFrozenToHot|
  {
    OrderedFrozenToHot[i..]
  }

  lemma SuffixShape(i: nat)
    requires i < |OrderedFrozenToHot|
    ensures |Suffix(i)| > 0 && Suffix(i)[0] == OrderedFrozenToHot[i]
    ensures forall j :: 0 <= j < |Suffix(i)| ==> ',' !in Suffix(i)[j] && Suffix(i)[j] != "" && ValidTierName(Suffix(i)[j])
  {
    forall j | 0 <= j < |Suffix(i)|
      ensures ',' !in Suffix(i)[j] && Suffix(i)[j] != "" && ValidTierName(Suffix(i)[j])
    {
      assert Suffix(i)[j] in OrderedFrozenToHot;
    }
  }

  /** Parsing a preferred configuration gives back exactly the suffix of the
      frozen-to-hot list it was joined from. */
  lemma ParsePreferred(i: nat)
    requires i < |OrderedFrozenToHot|
    ensures ParseTierList(Some(Join(Suffix(i)))) == Suffix(i)
  {
    var parts := Suffix(i);
    SuffixShape(i);
    JoinStartsWith(parts);
    assert Join(parts)[0] == parts[0][0] == 'd';
    SplitJoin(parts);
  }

  // ---------------------------------------------------------------------
  // Validation
  // ---------------------------------------------------------------------

  function InvalidTiersMessage(value: string): string
  {
    "invalid tier names found in [" + value + "] allowed values are [data_content, data_hot, data_warm, data_cold, data_frozen]"
  }

  /** The validator's loop over the parsed tiers: the first invalid name
      fails, if there is one. */
  function CheckTiers(value: string, tiers: seq<string>): (r: Outcome<string>)
    ensures r.Pass? <==> forall i :: 0 <= i < |tiers| ==> ValidTierName(tiers[i])
  {
    if |tiers| == 0 then Pass
    else if !ValidTierName(tiers[0]) then Fail(InvalidTiersMessage(value))
    else CheckTiers(value, tiers[1..])
  }

  /** The single-value validator of the tier-preference setting. */
  function Validate(value: Option<string>): Outcome<string>
  {
    if HasText(value) then CheckTiers(value.value, ParseTierList(value)) else Pass
  }

  lemma ValidateCases(value: Option<string>)
    ensures Validate(value).Fail? <==>
              HasText(value) && exists s :: s in ParseTierList(value) && !ValidTierName(s)
  {
    var tiers := ParseTierList(value);
    if HasText(value) {
      assert Validate(value) == CheckTiers(value.value, tiers);
      if exists s :: s in tiers && !ValidTierName(s) {
        var s :| s in tiers && !ValidTierName(s);
        var i :| 0 <= i < |tiers| && tiers[i] == s;
      } else {
        forall i | 0 <= i < |tiers| ensures ValidTierName(tiers[i]) {
          assert tiers[i] in tiers;
        }
      }
    }
  }

  /** Every preferred configuration passes the validator. */
  lemma PreferredValidates(targetTier: string)
    requires GetPreferredTiersConfiguration(targetTier).Success?
    ensures Validate(Some(GetPreferredTiersConfiguration(targetTier).value)).Pass?
  {
    PreferredTiers(targetTier);
    var i :| 0 <= i < |OrderedFrozenToHot| && OrderedFrozenToHot[i] == targetTier;
    ParsePreferred(i);
    SuffixShape(i);
  }

  /** The default preference: frozen for a partially mounted searchable
      snapshot, empty otherwise. */
  function GetDefaultTierPreference(isPartialSearchableSnapshot: bool): string
  {
    if isPartialSearchableSnapshot then DataFrozen else ""
  }

  /** The validator that sees the other index settings: nothing is checked
      unless the setting exists with a value; a partial searchable snapshot
      accepts only the frozen tier, and any other index rejects a value in
      which the frozen tier's name occurs. */
  function ValidateWithSettings(value: Option<string>, isPartialSearchableSnapshot: bool, settingExists: bool): Outcome<string>
  {
    if settingExists && value.Some? then
      if isPartialSearchableSnapshot then
        if value.value != DataFrozen then
          Fail("only the [data_frozen] tier preference may be used for partial searchable snapshots (got: [" + value.value + "])")
        else Pass
      else if Contains(value.value, DataFrozen) then Fail("[data_frozen] tier can only be used for partial searchable snapshots")
      else Pass
    else Pass
  }

  lemma ShortNotContained(str: string, s: string)
    requires |str| < |s|
    ensures !Contains(str, s)
  {
  }

  /** No tier name other than frozen contains the frozen tier's name, which
      the substring test of the validator relies on. */
  lemma NoOtherTierContainsFrozen()
    ensures forall t :: t in AllDataTiers && t != DataFrozen ==> !Contains(t, DataFrozen)
  {
    ShortNotContained(DataHot, DataFrozen);
    ShortNotContained(DataWarm, DataFrozen);
    ShortNotContained(DataCold, DataFrozen);
    forall i | 0 <= i <= |DataContent| ensures !OccursAt(DataContent, DataFrozen, i) {
      if i + |DataFrozen| <= |DataContent| {
        assert i == 0 || i == 1;
        assert DataContent[i + 5] != DataFrozen[5];
        assert DataContent[i..i + |DataFrozen|][5] == DataContent[i + 5];
      }
    }
  }

  /** The preference of the frozen tier names the frozen tier. */
  lemma FrozenPreferenceNamesFrozen()
    ensures Contains(Join(Suffix(0)), DataFrozen)
  {
    var parts := Suffix(0);
    SuffixShape(0);
    JoinStartsWith(parts);
    assert OccursAt(Join(parts), DataFrozen, 0);
  }

  /** The preference of any warmer tier does not name the frozen tier. */
  lemma WarmerPreferenceOmitsFrozen(i: nat)
    requires 0 < i < |OrderedFrozenToHot|
    ensures !Contains(Join(Suffix(i)), DataFrozen)
  {
    var parts := Suffix(i);
    SuffixShape(i);
    ContainsJoin(parts, DataFrozen);
    NoOtherTierContainsFrozen();
    forall j | 0 <= j < |parts| ensures !Contains(parts[j], DataFrozen) {
      assert parts[j] in OrderedFrozenToHot[1..];
    }
  }

  /** Outside partial searchable snapshots a preferred configuration is
      rejected exactly when it starts from the frozen tier. */
  lemma PreferredOutsideSnapshots(i: nat)
    requires i < |OrderedFrozenToHot|
    ensures ValidateWithSettings(Some(Join(Suffix(i))), false, true).Fail? <==> i == 0
  {
    if i == 0 {
      FrozenPreferenceNamesFrozen();
    } else {
      WarmerPreferenceOmitsFrozen(i);
    }
  }

  /** The default preference passes both validators. */
  lemma DefaultValidates(isPartialSearchableSnapshot: bool)
    ensures var d := GetDefaultTierPreference(isPartialSearchableSnapshot);
            && Validate(Some(d)).Pass?
            && ValidateWithSettings(Some(d), isPartialSearchableSnapshot, true).Pass?
  {
    var d := GetDefaultTierPreference(isPartialSearchableSnapshot);
    if isPartialSearchableSnapshot {
      SplitJoin([DataFrozen]);
      assert !IsWhitespace(d[0]);
    } else {
      ShortNotContained("", DataFrozen);
    }
  }

  // ---------------------------------------------------------------------
  // Default tier-preference provider
  // ---------------------------------------------------------------------

  /** The settings the provider adds to a new index, given the keys of the
      settings it is created with. The routing-filter prefixes are those of
      the index metadata (`…require`, `…exclude`, `…include`). */
  function GetAdditionalIndexSettings(indexName: string, dataStreamName: Option<string>, newDataStream: bool,
                                      resolvedAt: int, indexSettings: set<string>,
                                      requirePrefix: string, excludePrefix: string, includePrefix: string)
    : map<string, Option<string>>
  {
    if TierPreference in indexSettings then map[TierPreference := None]
    else if (exists s :: s in indexSettings && StartsWith(s, requirePrefix + "."))
         || (exists s :: s in indexSettings && StartsWith(s, excludePrefix + "."))
         || (exists s :: s in indexSettings && StartsWith(s, includePrefix + ".")) then map[]
    else if dataStreamName.Some? then map[TierPreference := Some(DataHot)]
    else map[TierPreference := Some(DataContent)]
  }

  /** The provider sets at most the tier preference; a value it injects is
      the hot tier for a data stream index and the content tier otherwise,
      and both validators accept it for an index that is not a partial
      searchable snapshot. */
  lemma ProviderInjectsValidPreference(indexName: string, dataStreamName: Option<string>, newDataStream: bool,
                                       resolvedAt: int, indexSettings: set<string>,
                                       requirePrefix: string, excludePrefix: string, includePrefix: string)
    ensures var r := GetAdditionalIndexSettings(indexName, dataStreamName, newDataStream, resolvedAt, indexSettings,
                                                requirePrefix, excludePrefix, includePrefix);
            && r.Keys <= {TierPreference}
            && (TierPreference in r && r[TierPreference].Some? ==>
                  && r[TierPreference].value == (if dataStreamName.Some? then DataHot else DataContent)
                  && Validate(r[TierPreference]).Pass?
                  && ValidateWithSettings(r[TierPreference], false, true).Pass?)
  {
    var r := GetAdditionalIndexSettings(indexName, dataStreamName, newDataStream, resolvedAt, indexSettings,
                                        requirePrefix, excludePrefix, includePrefix);
    if TierPreference in r && r[TierPreference].Some? {
      var v := r[TierPreference].value;
      SplitJoin([v]);
      assert !IsWhitespace(v[0]);
      NoOtherTierContainsFrozen();
    }
  }

  /** The branches are tried in order: an explicit preference gives the null
      marker even when routing filters are set too, and it would otherwise
      count as an include filter itself. */
  lemma ProviderExplicitPreferenceFirst(indexName: string, dataStreamName: Option<string>, newDataStream: bool,
                                        resolvedAt: int, indexSettings: set<string>, requirePrefix: string,
                                        excludePrefix: string)
    requires TierPreference in indexSettings
    ensures GetAdditionalIndexSettings(indexName, dataStreamName, newDataStream, resolvedAt, indexSettings,
                                       requirePrefix, excludePrefix, "index.routing.allocation.include")
            == map[TierPreference := None]
    ensures StartsWith(TierPreference, "index.routing.allocation.include" + ".")
  {
    assert TierPreference[..|"index.routing.allocation.include."|] == "index.routing.allocation.include.";
  }

  /** Without an explicit preference, any routing filter suppresses the
      default; with none, the default is set. */
  lemma ProviderDefaults(indexName: string, dataStreamName: Option<string>, newDataStream: bool,
                         resolvedAt: int, indexSettings: set<string>,
                         requirePrefix: string, excludePrefix: string, includePrefix: string)
    requires TierPreference !in indexSettings
    ensures var r := GetAdditionalIndexSettings(indexName, dataStreamName, newDataStream, resolvedAt, indexSettings,
                                                requirePrefix, excludePrefix, includePrefix);
            r == map[] <==> exists s :: s in indexSettings && (|| StartsWith(s, requirePrefix + ".")
                                                               || StartsWith(s, excludePrefix + ".")
                                                               || StartsWith(s, includePrefix + "."))
  {
    var r := GetAdditionalIndexSettings(indexName, dataStreamName, newDataStream, resolvedAt, indexSettings,
                                        requirePrefix, excludePrefix, includePrefix);
    if exists s :: s in indexSettings && (|| StartsWith(s, requirePrefix + ".")
                                          || StartsWith(s, excludePrefix + ".")
                                          || StartsWith(s, includePrefix + ".")) {
      var s :| s in indexSettings && (|| StartsWith(s, requirePrefix + ".")
                                     || StartsWith(s, excludePrefix + ".")
                                     || StartsWith(s, includePrefix + "."));
      assert r == map[];
    } else {
      assert TierPreference in r;
    }
  }

  // ---------------------------------------------------------------------
  // Node roles
  // ---------------------------------------------------------------------

  /** Node settings list a tier role explicitly. */
  predicate IsExplicitDataTier(settings: map<string, seq<string>>)
  {
    NodeRoles in settings && exists r :: r in settings[NodeRoles] && ValidTierName(r)
  }

  /** A node with these roles holds data of `tier`: it has the tier's role
      or the generic data role. */
  predicate InTier(roles: set<string>, tier: string)
  {
    tier in roles || DataRole in roles
  }

  predicate IsContentNode(roles: set<string>) { InTier(roles, DataContent) }
  predicate IsHotNode(roles: set<string>) { InTier(roles, DataHot) }
  predicate IsWarmNode(roles: set<string>) { InTier(roles, DataWarm) }
  predicate IsColdNode(roles: set<string>) { InTier(roles, DataCold) }
  predicate IsFrozenNode(roles: set<string>) { InTier(roles, DataFrozen) }

  /** The generic data role puts a node in every tier, but it is not an
      explicit tier role. */
  lemma DataRoleCoversEveryTier(roles: set<string>)
    requires DataRole in roles
    ensures IsContentNode(roles) && IsHotNode(roles) && IsWarmNode(roles) && IsColdNode(roles) && IsFrozenNode(roles)
    ensures !IsExplicitDataTier(map[NodeRoles := [DataRole]])
  {
    assert !ValidTierName(DataRole);
  }

  /** A node listing its roles is an explicit data-tier node exactly when it
      is in some tier through that tier's own role. */
  lemma ExplicitTierMeansTierRole(roles: seq<string>)
    ensures IsExplicitDataTier(map[NodeRoles := roles]) <==>
              exists t :: t in AllDataTiers && t in roles
    ensures forall t :: t in AllDataTiers && t in roles ==> InTier((set r | r in roles), t)
  {
    var settings := map[NodeRoles := roles];
    if exists t :: t in AllDataTiers && t in roles {
      var t :| t in AllDataTiers && t in roles;
      assert t in settings[NodeRoles] && ValidTierName(t);
    }
  }
}
