// The migration of legacy providers into custom providers
// (packages/config/src/byok-config.ts), on the parsed configuration. Names are
// looked up in plain objects, so a name that every object inherits is found too.

module ByokMigration {
  import opened Options
  import Keys = ByokKeys

  const RESERVED: set<string> := {"minimax", "minimax_api", "provider", "custom_provider"}

  /** What an empty object already answers to. */
  const INHERITED: set<string> := {
    "constructor", "toString", "toLocaleString", "valueOf", "hasOwnProperty", "isPrototypeOf", "propertyIsEnumerable",
    "__proto__", "__defineGetter__", "__defineSetter__", "__lookupGetter__", "__lookupSetter__"}

  datatype Flag = Absent | True | False | OtherValue

  /** `rest` stands for all other fields. */
  datatype ProviderOptions = ProviderOptions(apiKey: Option<string>, baseURL: Option<string>,
      authMode: Option<string>, rest: string)

  datatype Provider = Provider(
    name: Option<string>,
    kind: Option<string>,
    enabled: Flag,
    options: Option<ProviderOptions>,
    hasModels: bool,
    rest: string)

  /** A value under `provider` or `custom_provider`: a plain object, or anything else. */
  datatype Item = Record(provider: Provider) | NotRecord(text: string)

  datatype Entry = Entry(id: string, item: Item)

  /** A key made from an id or a name: never empty, and without underscores, spaces or slashes. */
  type Slug = s: string | s != "" && '_' !in s && ' ' !in s && '/' !in s witness "a"

  /** How a function or the prototype itself prints; there is always a space in it. */
  type Printed = s: string | ' ' in s witness " "

  /** What is left open: blank texts, the managed providers, slugs, and how inherited values print. */
  datatype Setting = Setting(
    blank: string -> bool,
    managed: set<string>,
    slug: (string, Option<string>) -> Slug,
    inheritedText: string -> Printed)

  datatype Raw = Raw(
    providers: seq<Entry>,
    custom: Option<map<string, Item>>,
    marker: map<string, string>,
    defaultModel: Option<string>,
    defaultLightModel: Option<string>,
    nexusProvider: Option<string>)

  // ---- One provider -----------------------------------------------------------------

  predicate HasLegacyShape(setting: Setting, p: Provider) {
    && p.options.Some?
    && p.options.value.apiKey.Some? && !setting.blank(p.options.value.apiKey.value)
    && p.options.value.baseURL.Some? && !setting.blank(p.options.value.baseURL.value)
    && p.hasModels
  }

  predicate Eligible(setting: Setting, e: Entry) {
    && e.id != "minimax" && e.id != "minimax_api"
    && e.item.Record? && HasLegacyShape(setting, e.item.provider)
    && e.id !in setting.managed
  }

  function Migrated(p: Provider): Provider {
    p.(kind := Some("custom"),
       enabled := if p.enabled == False then False else True,
       options := match p.options
         case Some(o) => Some(o.(authMode := Some("api-key")))
         case None => Some(ProviderOptions(None, None, Some("api-key"), "")))
  }

  /** `object[name]` on an object with text values. */
  datatype Found = Own(text: string) | FromPrototype | Nothing

  function Lookup(m: map<string, string>, name: string): Found {
    if name in m then Own(m[name]) else if name in INHERITED then FromPrototype else Nothing
  }

  /** `isPlainRecord(custom[key])`; the prototype itself is an object, its methods are not. */
  predicate IsRecordAt(custom: map<string, Item>, key: string) {
    if key in custom then custom[key].Record? else key == "__proto__"
  }

  /** The text under which a truthy lookup result is used as a key. */
  function Recorded(setting: Setting, found: Found, name: string): Option<string> {
    match found
    case Own(text) => if text == "" then None else Some(text)
    case FromPrototype => Some(setting.inheritedText(name))
    case Nothing => None
  }

  /** What the loop over the providers has done so far; `existing` are the keys not to be generated again. */
  datatype Progress = Progress(
    custom: map<string, Item>,
    existing: set<string>,
    marker: map<string, string>,
    migrated: map<string, string>,
    deleted: set<string>)

  function Handle(setting: Setting, s: Progress, e: Entry): Progress {
    if !Eligible(setting, e) then s
    else
      var found := Lookup(s.marker, e.id);
      var recorded := Recorded(setting, found, e.id);
      var usable := recorded.Some? && !(found.Own? && found.text in RESERVED);
      if usable && !IsRecordAt(s.custom, recorded.value) then s.(deleted := s.deleted + {e.id})
      else
        var key := if usable then recorded.value
                   else Keys.FreeKey(setting.slug(e.id, e.item.provider.name), s.existing + RESERVED);
        var fill := !IsRecordAt(s.custom, key);
        Progress(
          if fill then s.custom[key := Record(Migrated(e.item.provider))] else s.custom,
          if fill then s.existing + {key} else s.existing,
          if found == Own(key) || found.FromPrototype? then s.marker else s.marker[e.id := key],
          s.migrated[e.id := key],
          s.deleted + {e.id})
  }

  function HandleAll(setting: Setting, s: Progress, entries: seq<Entry>): Progress {
    if entries == [] then s
    else Handle(setting, HandleAll(setting, s, entries[..|entries| - 1]), entries[|entries| - 1])
  }

  // ---- References ----------------------------------------------------------------------

  const PREFIX := "custom_provider:"

  function IndexOfSlash(text: string, from: nat): int
    requires from <= |text|
    decreases |text| - from
  {
    if from == |text| then -1 else if text[from] == '/' then from else IndexOfSlash(text, from + 1)
  }

  function Target(setting: Setting, migrated: map<string, string>, id: string): Option<string> {
    Recorded(setting, Lookup(migrated, id), id)
  }

  function RewriteRef(setting: Setting, migrated: map<string, string>, text: string): string {
    var slash := IndexOfSlash(text, 0);
    if slash <= 0 || slash >= |text| - 1 then text
    else
      var target := Target(setting, migrated, text[..slash]);
      if target.None? then text else PREFIX + target.value + "/" + text[slash + 1..]
  }

  function RewriteField(setting: Setting, migrated: map<string, string>, field: Option<string>): Option<string> {
    if field.None? then None else Some(RewriteRef(setting, migrated, field.value))
  }

  function RewriteNexus(setting: Setting, migrated: map<string, string>, field: Option<string>): Option<string> {
    if field.None? then None
    else
      var target := Target(setting, migrated, field.value);
      if target.None? then field else Some(PREFIX + target.value)
  }

  // ---- The whole migration ----------------------------------------------------------------

  function CustomOf(raw: Raw): map<string, Item> {
    if raw.custom.Some? then raw.custom.value else map[]
  }

  function Begin(raw: Raw): Progress {
    Progress(CustomOf(raw), CustomOf(raw).Keys, raw.marker, map[], {})
  }

  function Remaining(entries: seq<Entry>, deleted: set<string>): seq<Entry> {
    if entries == [] then []
    else
      var init, last := entries[..|entries| - 1], entries[|entries| - 1];
      Remaining(init, deleted) + if last.id in deleted then [] else [last]
  }

  /** The configuration as it is written back. */
  function Written(setting: Setting, raw: Raw, s: Progress): Raw {
    Raw(Remaining(raw.providers, s.deleted),
        if s.custom == map[] then None else Some(s.custom),
        s.marker,
        RewriteField(setting, s.migrated, raw.defaultModel),
        RewriteField(setting, s.migrated, raw.defaultLightModel),
        RewriteNexus(setting, s.migrated, raw.nexusProvider))
  }

  /** Nothing is written unless some provider left the tree. */
  function Migrate(setting: Setting, raw: Raw): Raw {
    var s := HandleAll(setting, Begin(raw), raw.providers);
    if s.deleted == {} then raw else Written(setting, raw, s)
  }

  ghost predicate DistinctIds(entries: seq<Entry>) {
    forall i, j :: 0 <= i < j < |entries| ==> entries[i].id != entries[j].id
  }

  // ---- What it promises ---------------------------------------------------------------------

  /** An eligible provider whose id no object inherits. */
  ghost predicate Moves(setting: Setting, e: Entry) {
    Eligible(setting, e) && e.id !in INHERITED
  }

  ghost predicate Fresh(custom: map<string, Item>, key: string) {
    key !in custom && key !in RESERVED
  }

  ghost predicate Known(entries: seq<Entry>, id: string) {
    exists i :: 0 <= i < |entries| && entries[i].id == id
  }

  /** The names in use stand for providers that were seen; a moved provider is recorded under its key. */
  ghost predicate Names(entries: seq<Entry>, s: Progress) {
    && (forall id :: id in s.marker ==> id !in INHERITED && id in s.migrated && s.marker[id] == s.migrated[id])
    && (forall id :: id in s.migrated && id !in INHERITED ==> id in s.marker)
    && (forall id :: id in s.migrated || id in s.deleted ==> Known(entries, id))
  }

  /** Nothing that was there is touched, and all that is new was moved there. */
  ghost predicate Grows(setting: Setting, custom: map<string, Item>, entries: seq<Entry>, s: Progress) {
    && s.custom.Keys <= s.existing
    && (forall k :: k in custom ==> k in s.custom && s.custom[k] == custom[k])
    && (forall k :: k in s.custom && k !in custom ==>
          ' ' !in k && exists i :: 0 <= i < |entries| && MovedTo(setting, entries[i], s, k))
  }

  ghost predicate MovedTo(setting: Setting, e: Entry, s: Progress, key: string) {
    Moves(setting, e) && e.id in s.migrated && s.migrated[e.id] == key
  }

  /**
   * A custom provider with the name, key, address and all other fields of `p`, marked as custom, to be used
   * with the key, and disabled only if `p` was.
   */
  ghost predicate CopyOf(p: Provider, item: Item) {
    && item.Record? && item.provider.name == p.name && item.provider.rest == p.rest
    && item.provider.hasModels == p.hasModels
    && item.provider.kind == Some("custom")
    && item.provider.enabled == (if p.enabled == False then False else True)
    && item.provider.options.Some? && item.provider.options.value.authMode == Some("api-key")
    && (p.options.Some? ==>
          && item.provider.options.value.apiKey == p.options.value.apiKey
          && item.provider.options.value.baseURL == p.options.value.baseURL
          && item.provider.options.value.rest == p.options.value.rest)
  }

  /** What became of one provider. */
  ghost predicate Handled(setting: Setting, custom: map<string, Item>, e: Entry, s: Progress) {
    && (e.id in s.deleted <==> Eligible(setting, e))
    && (Moves(setting, e) ==>
          && e.id in s.migrated
          && Fresh(custom, s.migrated[e.id]) && '/' !in s.migrated[e.id] && s.migrated[e.id] != ""
          && s.migrated[e.id] in s.custom
          && CopyOf(e.item.provider, s.custom[s.migrated[e.id]]))
    && (!Eligible(setting, e) ==> e.id !in s.migrated)
    && (Eligible(setting, e) && e.id in INHERITED ==>
          && (e.id in s.migrated <==> IsRecordAt(custom, setting.inheritedText(e.id)))
          && (e.id in s.migrated ==> s.migrated[e.id] == setting.inheritedText(e.id)))
  }

  ghost predicate Collide(setting: Setting, e: Entry, f: Entry, s: Progress) {
    && Moves(setting, e) && Moves(setting, f)
    && e.id in s.migrated && f.id in s.migrated && s.migrated[e.id] == s.migrated[f.id]
  }

  ghost predicate KeysDiffer(setting: Setting, entries: seq<Entry>, s: Progress) {
    forall i, j :: 0 <= i < j < |entries| ==> !Collide(setting, entries[i], entries[j], s)
  }

  ghost predicate Tracks(setting: Setting, custom: map<string, Item>, entries: seq<Entry>, s: Progress) {
    && Names(entries, s)
    && Grows(setting, custom, entries, s)
    && (forall i :: 0 <= i < |entries| ==> Handled(setting, custom, entries[i], s))
    && KeysDiffer(setting, entries, s)
  }

  /** Whoever moves gets a key that is free, and the key does not look like an inherited name. */
  lemma MovingIsFresh(setting: Setting, custom: map<string, Item>, entries: seq<Entry>, s: Progress, e: Entry)
    requires Names(entries, s) && Grows(setting, custom, entries, s)
    requires Moves(setting, e) && !Known(entries, e.id)
    ensures var key := Keys.FreeKey(setting.slug(e.id, e.item.provider.name), s.existing + RESERVED);
      && key !in s.custom && Fresh(custom, key) && key != "" && ' ' !in key && '/' !in key
      && Handle(setting, s, e) == Progress(s.custom[key := Record(Migrated(e.item.provider))], s.existing + {key},
                                           s.marker[e.id := key], s.migrated[e.id := key], s.deleted + {e.id})
  {
    var slug := setting.slug(e.id, e.item.provider.name);
    var key := Keys.FreeKey(slug, s.existing + RESERVED);
    var suffix: nat :| Keys.FirstFree(slug, s.existing + RESERVED, suffix) && key == Keys.Candidate(slug, suffix);
    forall c | c in key ensures c != '_' && c != ' ' && c != '/' {
      Keys.CandidateCharacters(slug, suffix, c);
    }
    assert "__proto__"[0] == '_';
    assert Lookup(s.marker, e.id) == Nothing;
  }

  /** An inherited name is always found; it leads to deletion without a copy. */
  lemma InheritedIsDropped(setting: Setting, custom: map<string, Item>, entries: seq<Entry>, s: Progress, e: Entry)
    requires Names(entries, s) && Grows(setting, custom, entries, s)
    requires Eligible(setting, e) && e.id in INHERITED
    ensures var text := setting.inheritedText(e.id);
      Handle(setting, s, e) == s.(
        migrated := if IsRecordAt(custom, text) then s.migrated[e.id := text] else s.migrated,
        deleted := s.deleted + {e.id})
  {
    var text := setting.inheritedText(e.id);
    assert Lookup(s.marker, e.id) == FromPrototype;
    assert "__proto__" == ['_', '_', 'p', 'r', 'o', 't', 'o', '_', '_'];
    assert IsRecordAt(s.custom, text) == IsRecordAt(custom, text);
  }

  /** Which providers are eligible: unmanaged, with models and with a key and an address that are not blank. */
  lemma EligibleExactlyWhen(setting: Setting, e: Entry)
    ensures Eligible(setting, e) <==>
      && e.id !in {"minimax", "minimax_api"} && e.id !in setting.managed
      && e.item.Record? && e.item.provider.hasModels && e.item.provider.options.Some?
      && var o := e.item.provider.options.value;
         o.apiKey.Some? && !setting.blank(o.apiKey.value) && o.baseURL.Some? && !setting.blank(o.baseURL.value)
  {
  }

  /**
   * An earlier marker decides: the custom provider it names is used as it is, and if it is gone the
   * provider is deleted without a new copy. A blank or reserved marker is replaced by a fresh key.
   */
  lemma EarlierMarkersDecide(setting: Setting, s: Progress, e: Entry)
    requires Eligible(setting, e) && e.id in s.marker && s.custom.Keys <= s.existing
    ensures var text, after := s.marker[e.id], Handle(setting, s, e);
      && e.id in after.deleted
      && (text != "" && text !in RESERVED && text in s.custom && s.custom[text].Record? ==>
            after == s.(migrated := s.migrated[e.id := text], deleted := s.deleted + {e.id}))
      && (text != "" && text !in RESERVED && text !in s.custom && text != "__proto__" ==>
            after == s.(deleted := s.deleted + {e.id}))
      && ((text == "" || text in RESERVED) ==>
            && e.id in after.migrated && after.migrated[e.id] !in s.custom && after.migrated[e.id] !in RESERVED
            && after.marker == s.marker[e.id := after.migrated[e.id]])
  {
  }

  lemma StillKnown(entries: seq<Entry>, e: Entry, id: string)
    ensures Known(entries + [e], id) <==> Known(entries, id) || e.id == id
  {
    var all := entries + [e];
    if Known(entries, id) {
      var i :| 0 <= i < |entries| && entries[i].id == id;
      assert all[i].id == id;
    }
    if e.id == id {
      assert all[|entries|].id == id;
    }
    if Known(all, id) {
      var i :| 0 <= i < |all| && all[i].id == id;
      assert i < |entries| ==> entries[i].id == id;
    }
  }

  lemma HandleKeepsNames(setting: Setting, custom: map<string, Item>, entries: seq<Entry>, s: Progress, e: Entry)
    requires Names(entries, s) && Grows(setting, custom, entries, s) && !Known(entries, e.id)
    ensures Names(entries + [e], Handle(setting, s, e))
  {
    forall id ensures Known(entries + [e], id) <==> Known(entries, id) || e.id == id {
      StillKnown(entries, e, id);
    }
    if Moves(setting, e) {
      MovingIsFresh(setting, custom, entries, s, e);
    } else if Eligible(setting, e) {
      InheritedIsDropped(setting, custom, entries, s, e);
    }
  }

  lemma HandleKeepsGrowth(setting: Setting, custom: map<string, Item>, entries: seq<Entry>, s: Progress, e: Entry)
    requires Names(entries, s) && Grows(setting, custom, entries, s) && !Known(entries, e.id)
    ensures Grows(setting, custom, entries + [e], Handle(setting, s, e))
  {
    var after, all := Handle(setting, s, e), entries + [e];
    if Moves(setting, e) {
      MovingIsFresh(setting, custom, entries, s, e);
    } else if Eligible(setting, e) {
      InheritedIsDropped(setting, custom, entries, s, e);
    }
    forall k | k in after.custom && k !in custom
      ensures ' ' !in k && exists i :: 0 <= i < |all| && MovedTo(setting, all[i], after, k)
    {
      if k in s.custom {
        var i :| 0 <= i < |entries| && MovedTo(setting, entries[i], s, k);
        assert Known(entries, entries[i].id);
        assert MovedTo(setting, all[i], after, k);
      } else {
        assert MovedTo(setting, all[|entries|], after, k);
      }
    }
  }

  /** Handling one provider leaves what became of the others, and settles what becomes of it. */
  lemma HandleKeepsHandled(setting: Setting, custom: map<string, Item>, entries: seq<Entry>, s: Progress, e: Entry,
      f: Entry)
    requires Names(entries, s) && Grows(setting, custom, entries, s) && !Known(entries, e.id)
    requires f == e || (Handled(setting, custom, f, s) && f.id != e.id)
    ensures Handled(setting, custom, f, Handle(setting, s, e))
  {
    if Moves(setting, e) {
      MovingIsFresh(setting, custom, entries, s, e);
    } else if Eligible(setting, e) {
      InheritedIsDropped(setting, custom, entries, s, e);
    }
  }

  lemma HandleKeepsKeysApart(setting: Setting, custom: map<string, Item>, entries: seq<Entry>, s: Progress, e: Entry,
      f: Entry)
    requires Names(entries, s) && Grows(setting, custom, entries, s) && !Known(entries, e.id)
    requires f.id != e.id && Handled(setting, custom, f, s)
    ensures !Collide(setting, f, e, Handle(setting, s, e))
  {
    if Moves(setting, e) {
      MovingIsFresh(setting, custom, entries, s, e);
    }
  }

  lemma HandleKeepsTracks(setting: Setting, custom: map<string, Item>, entries: seq<Entry>, s: Progress, e: Entry)
    requires Tracks(setting, custom, entries, s) && !Known(entries, e.id)
    ensures Tracks(setting, custom, entries + [e], Handle(setting, s, e))
  {
    var after, all := Handle(setting, s, e), entries + [e];
    HandleKeepsNames(setting, custom, entries, s, e);
    HandleKeepsGrowth(setting, custom, entries, s, e);
    forall i | 0 <= i < |all| ensures Handled(setting, custom, all[i], after) {
      if i < |entries| {
        assert Known(entries, entries[i].id);
      }
      HandleKeepsHandled(setting, custom, entries, s, e, all[i]);
    }
    forall i, j | 0 <= i < j < |all| ensures !Collide(setting, all[i], all[j], after) {
      assert Known(entries, entries[i].id);
      if j == |entries| {
        HandleKeepsKeysApart(setting, custom, entries, s, e, all[i]);
      } else {
        assert Known(entries, entries[j].id);
        assert !Collide(setting, entries[i], entries[j], s);
        OthersKeepTheirKeys(setting, s, e, entries[i]);
        OthersKeepTheirKeys(setting, s, e, entries[j]);
      }
    }
  }

  lemma OthersKeepTheirKeys(setting: Setting, s: Progress, e: Entry, f: Entry)
    requires f.id != e.id
    ensures var after := Handle(setting, s, e);
      (f.id in after.migrated <==> f.id in s.migrated)
          && (f.id in s.migrated ==> after.migrated[f.id] == s.migrated[f.id])
  {
  }

  lemma {:induction false} LoopTracks(setting: Setting, raw: Raw, n: nat)
    requires n <= |raw.providers| && DistinctIds(raw.providers) && raw.marker == map[]
    ensures Tracks(setting, CustomOf(raw), raw.providers[..n], HandleAll(setting, Begin(raw), raw.providers[..n]))
  {
    if n > 0 {
      var entries := raw.providers[..n];
      assert entries[..n - 1] == raw.providers[..n - 1];
      LoopTracks(setting, raw, n - 1);
      assert entries == raw.providers[..n - 1] + [raw.providers[n - 1]];
      HandleKeepsTracks(setting, CustomOf(raw), raw.providers[..n - 1],
                        HandleAll(setting, Begin(raw), raw.providers[..n - 1]), raw.providers[n - 1]);
    }
  }

  // ---- The promises -------------------------------------------------------------------------

  function Result(setting: Setting, raw: Raw): Progress {
    HandleAll(setting, Begin(raw), raw.providers)
  }

  /**
   * Without an earlier marker: exactly the eligible providers leave the provider tree. One of them reappears
   * as a custom provider under a key of its own, free and not reserved, exactly when no object inherits its
   * id. What was a custom provider before is unchanged, and nothing else becomes one.
   */
  lemma ProvidersMove(setting: Setting, raw: Raw)
    requires DistinctIds(raw.providers) && raw.marker == map[]
    ensures var s, custom := Result(setting, raw), CustomOf(raw);
      && (forall k :: k in custom ==> k in s.custom && s.custom[k] == custom[k])
      && (forall k :: k in s.custom && k !in custom ==>
            exists i :: 0 <= i < |raw.providers| && MovedTo(setting, raw.providers[i], s, k))
      && (forall i :: 0 <= i < |raw.providers| ==> Handled(setting, custom, raw.providers[i], s))
      && KeysDiffer(setting, raw.providers, s)
      && (forall id :: id in s.deleted ==> Known(raw.providers, id))
  {
    assert raw.providers[..|raw.providers|] == raw.providers;
    LoopTracks(setting, raw, |raw.providers|);
  }

  /**
   * What is written back: the providers that stay, in order, the custom providers if there are any, and the
   * rewritten references; nothing at all when no provider leaves.
   */
  lemma MigratedConfiguration(setting: Setting, raw: Raw)
    ensures var s, after := Result(setting, raw), Migrate(setting, raw);
      && (s.deleted == {} ==> after == raw)
      && (s.deleted != {} ==>
            && (forall e :: e in after.providers <==> e in raw.providers && e.id !in s.deleted)
            && (s.custom == map[] ==> after.custom == None) && (s.custom != map[] ==> after.custom == Some(s.custom))
            && after.marker == s.marker
            && (raw.defaultModel.None? ==> after.defaultModel == None)
            && (raw.defaultModel.Some? ==>
                  after.defaultModel == Some(RewriteRef(setting, s.migrated, raw.defaultModel.value)))
            && (raw.defaultLightModel.None? ==> after.defaultLightModel == None)
            && (raw.defaultLightModel.Some? ==>
                  after.defaultLightModel == Some(RewriteRef(setting, s.migrated, raw.defaultLightModel.value)))
            && after.nexusProvider == RewriteNexus(setting, s.migrated, raw.nexusProvider))
  {
    RemainingAre(raw.providers, Result(setting, raw).deleted);
  }

  /** The provider named "constructor" is lost: deleted from the tree and nowhere copied. */
  lemma InheritedNamesAreLost(setting: Setting, p: Provider)
    requires HasLegacyShape(setting, p) && "constructor" !in setting.managed
    ensures var raw := Raw([Entry("constructor", Record(p))], None, map[], None, None, None);
      Migrate(setting, raw) == Raw([], None, map[], None, None, None)
  {
    var e := Entry("constructor", Record(p));
    var raw := Raw([e], None, map[], None, None, None);
    assert raw.providers[..|raw.providers| - 1] == [] && raw.providers[0] == e;
    assert HandleAll(setting, Begin(raw), []) == Begin(raw);
    assert Eligible(setting, e);
    var text := setting.inheritedText("constructor");
    assert ' ' in text && ' ' !in "__proto__";
    assert Handle(setting, Begin(raw), e) == Begin(raw).(deleted := {"constructor"});
    assert Result(setting, raw) == Handle(setting, HandleAll(setting, Begin(raw), []), e);
    assert Result(setting, raw) == Begin(raw).(deleted := {"constructor"});
    assert Remaining(raw.providers, {"constructor"}) == Remaining([], {"constructor"});
  }

  // ---- The migration as the source runs it ---------------------------------------------------

  class Config {
    var providers: seq<Entry>
    var custom: Option<map<string, Item>>
    var marker: map<string, string>
    var defaultModel: Option<string>
    var defaultLightModel: Option<string>
    var nexusProvider: Option<string>

    ghost function View(): Raw
      reads this
    {
      Raw(providers, custom, marker, defaultModel, defaultLightModel, nexusProvider)
    }

    /** One turn of the loop; the maps are the loop's own objects. */
    method MoveOne(setting: Setting, s: Progress, e: Entry) returns (after: Progress)
      ensures after == Handle(setting, s, e)
    {
      after := s;
      if !Eligible(setting, e) {
        return;
      }
      var found := Lookup(s.marker, e.id);
      var recorded := Recorded(setting, found, e.id);
      var usable := recorded.Some? && !(found.Own? && found.text in RESERVED);
      if usable && !IsRecordAt(s.custom, recorded.value) {
        after := after.(deleted := s.deleted + {e.id});
        return;
      }
      var key: string;
      if usable {
        key := recorded.value;
      } else {
        key := Keys.GenerateKey(setting.slug(e.id, e.item.provider.name), s.existing, RESERVED);
      }
      after := after.(migrated := after.migrated[e.id := key]);
      if !IsRecordAt(after.custom, key) {
        after := after.(custom := after.custom[key := Record(Migrated(e.item.provider))],
            existing := after.existing + {key});
      }
      if found != Own(key) && !found.FromPrototype? {
        after := after.(marker := after.marker[e.id := key]);
      }
      after := after.(deleted := after.deleted + {e.id});
    }

    method MigrateLegacyProviders(setting: Setting, managedRuntime: bool) returns (migrated: bool)
      modifies this
      ensures View() == if managedRuntime then Migrate(setting, old(View())) else old(View())
      ensures migrated <==> managedRuntime && Result(setting, old(View())).deleted != {}
    {
      if !managedRuntime {
        return false;
      }
      var known := if custom.Some? then custom.value else map[];
      var s := Progress(known, known.Keys, marker, map[], {});
      for i := 0 to |providers|
        invariant View() == old(View())
        invariant s == HandleAll(setting, Begin(View()), providers[..i])
      {
        assert providers[..i + 1][..i] == providers[..i];
        s := MoveOne(setting, s, providers[i]);
      }
      assert providers[..|providers|] == providers;
      if s.deleted == {} {
        return false;
      }
      defaultModel := RewriteField(setting, s.migrated, defaultModel);
      defaultLightModel := RewriteField(setting, s.migrated, defaultLightModel);
      nexusProvider := RewriteNexus(setting, s.migrated, nexusProvider);
      custom := if s.custom == map[] then None else Some(s.custom);
      marker := s.marker;
      providers := Remaining(providers, s.deleted);
      return true;
    }
  }

  lemma {:induction false} RemainingAre(entries: seq<Entry>, deleted: set<string>)
    ensures forall e :: e in Remaining(entries, deleted) <==> e in entries && e.id !in deleted
  {
    if entries != [] {
      RemainingAre(entries[..|entries| - 1], deleted);
      assert entries == entries[..|entries| - 1] + [entries[|entries| - 1]];
    }
  }

  lemma {:induction false} NothingEligibleNothingHandled(setting: Setting, s: Progress, entries: seq<Entry>)
    requires forall e :: e in entries ==> !Eligible(setting, e)
    ensures HandleAll(setting, s, entries) == s
  {
    if entries != [] {
      NothingEligibleNothingHandled(setting, s, entries[..|entries| - 1]);
    }
  }

  /** A second run changes nothing, whatever marker the first one found. */
  lemma SecondRunChangesNothing(setting: Setting, raw: Raw)
    ensures Migrate(setting, Migrate(setting, raw)) == Migrate(setting, raw)
  {
    var s := Result(setting, raw);
    EligibleAreDeleted(setting, Begin(raw), raw.providers);
    RemainingAre(raw.providers, s.deleted);
    var after := Migrate(setting, raw);
    NothingEligibleNothingHandled(setting, Begin(after), after.providers);
  }

  lemma {:induction false} EligibleAreDeleted(setting: Setting, s: Progress, entries: seq<Entry>)
    ensures forall e :: e in entries && Eligible(setting, e) ==> e.id in HandleAll(setting, s, entries).deleted
    ensures s.deleted <= HandleAll(setting, s, entries).deleted
  {
    if entries != [] {
      EligibleAreDeleted(setting, s, entries[..|entries| - 1]);
      assert entries == entries[..|entries| - 1] + [entries[|entries| - 1]];
    }
  }

  // ---- References ------------------------------------------------------------------------------

  datatype ModelRef = ModelRef(provider: string, model: string)

  /** `provider/model`, divided at the first slash. */
  function ParseRef(text: string): Option<ModelRef> {
    var slash := IndexOfSlash(text, 0);
    if slash <= 0 || slash >= |text| - 1 then None else Some(ModelRef(text[..slash], text[slash + 1..]))
  }

  lemma {:induction false} FirstSlash(text: string, from: nat, at: nat)
    requires from <= at < |text| && text[at] == '/'
    requires forall i :: from <= i < at ==> text[i] != '/'
    ensures IndexOfSlash(text, from) == at
    decreases at - from
  {
    if from < at {
      FirstSlash(text, from + 1, at);
    }
  }

  lemma ParseOfJoin(provider: string, model: string)
    requires '/' !in provider && provider != "" && model != ""
    ensures ParseRef(provider + "/" + model) == Some(ModelRef(provider, model))
  {
    var text := provider + "/" + model;
    FirstSlash(text, 0, |provider|);
    assert text[..|provider|] == provider && text[|provider| + 1..] == model;
  }

  /**
   * After a migration every model reference to a moved provider names its custom provider and the same
   * model; a reference to a provider that did not leave stays as it is, unless its id is an inherited name.
   */
  lemma ReferencesFollow(setting: Setting, raw: Raw, text: string, i: nat)
    requires DistinctIds(raw.providers) && raw.marker == map[]
    requires i < |raw.providers| && ParseRef(text).Some? && ParseRef(text).value.provider == raw.providers[i].id
    ensures var s, e, rewritten := Result(setting, raw), raw.providers[i],
              RewriteRef(setting, Result(setting, raw).migrated, text);
      && (Moves(setting, e) ==>
            && e.id in s.migrated
            && ParseRef(rewritten) == Some(ModelRef(PREFIX + s.migrated[e.id], ParseRef(text).value.model)))
      && (!Eligible(setting, e) ==> (e.id !in INHERITED ==> rewritten == text))
  {
    ProvidersMove(setting, raw);
    var s, e := Result(setting, raw), raw.providers[i];
    assert Handled(setting, CustomOf(raw), e, s);
    if Moves(setting, e) {
      assert Target(setting, s.migrated, e.id) == Some(s.migrated[e.id]);
      assert '/' !in PREFIX;
      ParseOfJoin(PREFIX + s.migrated[e.id], ParseRef(text).value.model);
    }
  }

  /** Which references change at all. */
  lemma RewrittenExactlyWhen(setting: Setting, migrated: map<string, string>, text: string)
    requires forall id :: id in migrated ==> migrated[id] != ""
    ensures RewriteRef(setting, migrated, text) != text ==>
      && ParseRef(text).Some?
      && (ParseRef(text).value.provider in migrated || ParseRef(text).value.provider in INHERITED)
    ensures ParseRef(text).Some? && ParseRef(text).value.provider in migrated ==>
      var ref := ParseRef(text).value;
      RewriteRef(setting, migrated, text) == PREFIX + migrated[ref.provider] + "/" + ref.model
  {
  }

  /** The nexus provider follows in the same way. */
  lemma NexusFollows(setting: Setting, raw: Raw, i: nat)
    requires DistinctIds(raw.providers) && raw.marker == map[] && i < |raw.providers|
    ensures var s, e := Result(setting, raw), raw.providers[i];
      var rewritten := RewriteNexus(setting, s.migrated, Some(e.id));
      && (Moves(setting, e) ==> e.id in s.migrated && rewritten == Some(PREFIX + s.migrated[e.id]))
      && (!Eligible(setting, e) && e.id !in INHERITED ==> rewritten == Some(e.id))
  {
    ProvidersMove(setting, raw);
    assert Handled(setting, CustomOf(raw), raw.providers[i], Result(setting, raw));
  }
}
