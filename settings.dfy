/** The live `settings` object and its persistence: loading settings.json
    over the defaults at startup, and `saveSettings`. The file itself is not
    modelled; a ghost field records what was last written and a ghost
    counter how many times. */
module SettingsStore {
  import opened Wrappers
  import opened OrderedSets
  import opened Commands

  /** The QQ numbers read from the configuration. */
  datatype Config = Config(loginQQ: int, reportQQ: int)

  /** The object in settings.json: each known key may be absent. */
  datatype Stored = Stored(
    whitelist: Option<seq<int>>,
    revoke: Option<bool>,
    censorAll: Option<bool>,
    moreSensitive: Option<bool>,
    minLength: Option<int>)

  function Pick<T>(stored: Option<T>, current: T): T
  {
    if stored.Some? then stored.value else current
  }

  /** `Object.assign(settings, stored)`: every key present in the file
      replaces the current value, every absent key keeps it. */
  function Overlay(p: Policy, s: Stored): (q: Policy)
    ensures q.whitelist == (if s.whitelist.Some? then s.whitelist.value else p.whitelist)
    ensures q.revoke == (if s.revoke.Some? then s.revoke.value else p.revoke)
    ensures q.censorAll == (if s.censorAll.Some? then s.censorAll.value else p.censorAll)
    ensures q.moreSensitive == (if s.moreSensitive.Some? then s.moreSensitive.value else p.moreSensitive)
    ensures q.minLength == (if s.minLength.Some? then s.minLength.value else p.minLength)
    ensures s == ToStored(p) ==> q == p
  {
    Policy(Pick(s.whitelist, p.whitelist), Pick(s.revoke, p.revoke), Pick(s.censorAll, p.censorAll),
           Pick(s.moreSensitive, p.moreSensitive), Pick(s.minLength, p.minLength))
  }

  /** The startup load: overlay the file (nothing when it cannot be read or
      parsed), turn the whitelist array into a set, then add the report and
      login QQ numbers. */
  function LoadOnto(p: Policy, file: Option<Stored>, cfg: Config): (q: Policy)
    ensures NoDuplicates(q.whitelist)
    ensures cfg.reportQQ in q.whitelist && cfg.loginQQ in q.whitelist
    ensures forall x :: x in q.whitelist <==>
      x in (if file.Some? then Overlay(p, file.value) else p).whitelist || x == cfg.reportQQ || x == cfg.loginQQ
    ensures var merged := if file.Some? then Overlay(p, file.value) else p;
      q.(whitelist := merged.whitelist) == merged
  {
    var merged := if file.Some? then Overlay(p, file.value) else p;
    merged.(whitelist := Add(Add(FromArray(merged.whitelist), cfg.reportQQ), cfg.loginQQ))
  }

  /** The object `saveSettings` writes: every key, the set as an array. */
  function ToStored(p: Policy): (s: Stored)
    ensures s.whitelist.Some? && s.revoke.Some? && s.censorAll.Some? && s.moreSensitive.Some? && s.minLength.Some?
  {
    Stored(Some(p.whitelist), Some(p.revoke), Some(p.censorAll), Some(p.moreSensitive), Some(p.minLength))
  }

  /** Loading what was saved gives back the saved settings, whatever the
      object it is loaded onto, once the whitelist already holds the report
      and login numbers (as it does after every load). */
  lemma {:induction false} LoadAfterSave(p: Policy, start: Policy, cfg: Config)
    requires NoDuplicates(p.whitelist)
    requires cfg.reportQQ in p.whitelist && cfg.loginQQ in p.whitelist
    ensures LoadOnto(start, Some(ToStored(p)), cfg) == p
  {
    FromArrayKeepsDistinct(p.whitelist);
  }

  /** In general the load adds back the report and login numbers if the
      operator had toggled them out, and changes nothing else. */
  lemma {:induction false} LoadAfterSaveReaddsIds(p: Policy, start: Policy, cfg: Config)
    requires NoDuplicates(p.whitelist)
    ensures LoadOnto(start, Some(ToStored(p)), cfg) ==
      p.(whitelist := Add(Add(p.whitelist, cfg.reportQQ), cfg.loginQQ))
  {
    FromArrayKeepsDistinct(p.whitelist);
  }

  /** The `settings` object. */
  class Settings {
    var whitelist: seq<int>
    var revoke: bool
    var censorAll: bool
    var moreSensitive: bool
    var minLength: int

    /** How many times `saveSettings` ran, and what it wrote last. */
    ghost var saves: nat
    ghost var file: Option<Stored>

    /** The whitelist is a set: no number occurs twice. */
    ghost predicate Valid()
      reads this
    {
      NoDuplicates(whitelist)
    }

    function Value(): Policy
      reads this
    {
      Policy(whitelist, revoke, censorAll, moreSensitive, minLength)
    }

    /** The module-level `settings`, built from the table's defaults. */
    constructor (ghost onDisk: Option<Stored>)
      ensures Valid()
      ensures Value() == Defaults()
      ensures saves == 0 && file == onDisk
    {
      var d := Defaults();
      whitelist, revoke, censorAll, moreSensitive, minLength :=
        d.whitelist, d.revoke, d.censorAll, d.moreSensitive, d.minLength;
      saves, file := 0, onDisk;
    }

    /** The startup load: `Object.assign`, `new Set`, and the two `add`s. */
    method Load(stored: Option<Stored>, cfg: Config)
      modifies this`whitelist, this`revoke, this`censorAll, this`moreSensitive, this`minLength
      ensures Valid()
      ensures Value() == LoadOnto(old(Value()), stored, cfg)
    {
      if stored.Some? {
        var merged := Overlay(Value(), stored.value);
        whitelist, revoke, censorAll, moreSensitive, minLength :=
          merged.whitelist, merged.revoke, merged.censorAll, merged.moreSensitive, merged.minLength;
      }
      whitelist := FromArray(whitelist);
      whitelist := Add(whitelist, cfg.reportQQ);
      whitelist := Add(whitelist, cfg.loginQQ);
    }

    /** `saveSettings()`. */
    method Save()
      modifies this`saves, this`file
      ensures saves == old(saves) + 1
      ensures file == Some(ToStored(Value()))
    {
      saves := saves + 1;
      file := Some(ToStored(Value()));
    }

    /** A table entry's setter `s(settings, arg)`. */
    method Set(k: Key, arg: string)
      requires Valid()
      modifies this`whitelist, this`revoke, this`censorAll, this`moreSensitive, this`minLength
      ensures Valid()
      ensures Value() == Apply(old(Value()), k, arg)
    {
      match k
      case Whitelist =>
        var x := JsNumbers.StringToInt32(arg);
        if x in whitelist {
          whitelist := Delete(whitelist, x);
        } else {
          whitelist := Add(whitelist, x);
        }
      case Revoke => revoke := arg == ON;
      case CensorAll => censorAll := arg == ON;
      case MoreSensitive => moreSensitive := arg == ON;
      case MinLength => minLength := JsNumbers.StringToInt32(arg);
    }

    /** `settings.whitelist.add(id)`. */
    method AddToWhitelist(id: int)
      requires Valid()
      modifies this`whitelist
      ensures Valid()
      ensures Value() == old(Value()).(whitelist := Add(old(whitelist), id))
    {
      whitelist := Add(whitelist, id);
    }
  }
}
