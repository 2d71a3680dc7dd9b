/**
 * The command-line reader of the migration tool: a positional command
 * followed by `--long value` and `-abc v1 v2 v3` flags, collected into a
 * flag map, with required flags enforced.
 *
 * `T::from_str` for the command and for flag values is a parameter
 * `parse: string -> Option<T>`; the argument iterator is a sequence of
 * strings together with the position of the next unread argument.
 */
module Cli {
  import opened Wrappers
  import opened Strings

  const UnwrapNone: string := "called `Option::unwrap()` on a `None` value"

  /** The positional command (`Command<T>`). */
  datatype Command<T> = Command(value: T)

  /**
   * `read_command`: consumes the next argument, if any, and parses it. The
   * argument is consumed even when it does not parse; both failures are the
   * empty error string.
   */
  function ReadCommand<T>(args: seq<string>, parse: string -> Option<T>): (r: (Result<Command<T>, string>, seq<string>))
    ensures args == [] ==> r == (Err([]), [])
    ensures args != [] ==> r.1 == args[1..] && (r.0.Ok? <==> parse(args[0]).Some?)
    ensures r.0.Ok? ==> parse(args[0]) == Some(r.0.value.value)
    ensures r.0.Err? ==> r.0.error == []
  {
    if args == [] then (Err([]), [])
    else match parse(args[0])
      case None => (Err([]), args[1..])
      case Some(v) => (Ok(Command(v)), args[1..])
  }

  /** The text given after a flag (`Flag`). */
  datatype Flag = Flag(value: string) {
    /** `Flag::value`: the text parsed with `from_str`, unwrapped. */
    function Value<V>(parse: string -> Option<V>): (r: Outcome<V>)
      ensures r.Done? <==> parse(value).Some?
      ensures r.Done? ==> parse(value) == Some(r.value)
    {
      match parse(value)
      case Some(v) => Done(v)
      case None => Panic("called `Result::unwrap()` on an `Err` value")
    }
  }

  datatype FlagPresence = Optional | Required

  datatype FlagConfiguration = FlagConfiguration(
    longName: string,
    shortName: Option<string>,
    description: string,
    presence: FlagPresence)

  /** `FlagConfiguration::required`. */
  function RequiredFlag(longName: string, shortName: Option<string>, description: string): (c: FlagConfiguration)
    ensures c.presence == Required
    ensures c.(presence := Optional) == OptionalFlag(longName, shortName, description)
  {
    FlagConfiguration(longName, shortName, description, Required)
  }

  /** `FlagConfiguration::optional`: the same configuration, but the flag may be omitted. */
  function OptionalFlag(longName: string, shortName: Option<string>, description: string): (c: FlagConfiguration)
    ensures c.presence == Optional
    ensures c.longName == longName && c.shortName == shortName && c.description == description
  {
    FlagConfiguration(longName, shortName, description, Optional)
  }

  /** The flags given on the command line, by key (`FlagMap<T>`). */
  class FlagMap<K(==)> {
    var entries: map<K, Flag>

    /** `FlagMap::new`: no flag given. */
    constructor ()
      ensures entries == map[]
    {
      entries := map[];
    }

    /** `has`: the flag was given. */
    function Has(key: K): (b: bool)
      reads this
      ensures b <==> key in entries
    {
      key in entries
    }

    /** `insert`: records a flag, replacing an earlier value for the same key. */
    method Insert(key: K, flag: Flag)
      modifies this
      ensures entries == old(entries)[key := flag]
      ensures Has(key)
    {
      entries := entries[key := flag];
    }

    /** `get`: the parsed value of a flag; panics when the flag is absent or does not parse. */
    function Get<V>(key: K, parse: string -> Option<V>): (r: Outcome<V>)
      reads this
      ensures key !in entries ==> r.Panic?
      ensures key in entries ==> r == entries[key].Value(parse)
      ensures r.Done? ==> key in entries && parse(entries[key].value) == Some(r.value)
    {
      if key in entries then entries[key].Value(parse) else Panic(UnwrapNone)
    }

    /**
     * `get_optional`: `None` for an absent flag, the parsed value otherwise;
     * still panics when a present value does not parse.
     */
    function GetOptional<V>(key: K, parse: string -> Option<V>): (r: Outcome<Option<V>>)
      reads this
      ensures key !in entries ==> r == Done(None)
      ensures key in entries ==> (r.Done? <==> parse(entries[key].value).Some?)
      ensures r.Done? && r.value.Some? ==> key in entries && parse(entries[key].value) == Some(r.value.value)
    {
      if key in entries then
        match entries[key].Value(parse)
        case Done(v) => Done(Some(v))
        case Panic(m) => Panic(m)
      else Done(None)
    }
  }

  /** Long name to flag; a later flag with the same long name replaces an earlier one. */
  function LongNames<K>(flags: seq<K>, config: K -> FlagConfiguration): (names: map<string, K>)
    ensures forall f :: f in flags ==> config(f).longName in names
    ensures forall n :: n in names ==> names[n] in flags && config(names[n]).longName == n
    decreases |flags|
  {
    if flags == [] then map[]
    else
      var last := flags[|flags| - 1];
      var earlier := LongNames(flags[..|flags| - 1], config);
      assert forall f :: f in flags ==> f == last || f in flags[..|flags| - 1];
      earlier[config(last).longName := last]
  }

  /** Short name to flag, for the flags that have one. */
  function ShortNames<K>(flags: seq<K>, config: K -> FlagConfiguration): (names: map<string, K>)
    ensures forall f :: f in flags && config(f).shortName.Some? ==> config(f).shortName.value in names
    ensures forall n :: n in names ==> names[n] in flags && config(names[n]).shortName == Some(n)
    decreases |flags|
  {
    if flags == [] then map[]
    else
      var last := flags[|flags| - 1];
      var earlier := ShortNames(flags[..|flags| - 1], config);
      assert forall f :: f in flags ==> f == last || f in flags[..|flags| - 1];
      match config(last).shortName
      case None => earlier
      case Some(s) => earlier[s := last]
  }

  /**
   * The letters of one `-abc` group: each letter names a flag by its short
   * name and takes the next argument as its value. Starts at argument `j`.
   */
  function ScanShort<K>(letters: string, args: seq<string>, j: nat, shorts: map<string, K>, acc: map<K, Flag>)
    : (r: Outcome<(map<K, Flag>, nat)>)
    requires j <= |args|
    ensures r.Done? ==> r.value.1 == j + |letters| <= |args|
    ensures r.Done? ==> forall k :: k in r.value.0 ==> k in acc || k in shorts.Values
    ensures r.Done? <==> (forall c :: c in letters ==> [c] in shorts) && j + |letters| <= |args|
    ensures r.Panic? ==> r.message == "Should get key" || r.message == UnwrapNone
    decreases |letters|
  {
    if letters == [] then Done((acc, j))
    else
      assert forall c :: c in letters[1..] ==> c in letters;
      if [letters[0]] !in shorts then Panic("Should get key")
      else if j == |args| then Panic(UnwrapNone)
      else ScanShort(letters[1..], args, j + 1, shorts, acc[shorts[[letters[0]]] := Flag(args[j])])
  }

  /**
   * The flag loop of `read_flags` from argument `i` on: stops at the first
   * argument that does not start with `-`; a `--name` takes the next
   * argument as the value of the flag with that long name, a `-abc` group
   * is handled by `ScanShort`. Unknown names and missing values panic.
   */
  function Scan<K>(args: seq<string>, i: nat, longs: map<string, K>, shorts: map<string, K>, acc: map<K, Flag>)
    : (r: Outcome<(map<K, Flag>, nat)>)
    requires i <= |args|
    ensures r.Done? ==> i <= r.value.1 <= |args|
    ensures r.Done? ==> r.value.1 == |args| || !StartsWith(args[r.value.1], "-")
    ensures r.Done? ==> forall k :: k in r.value.0 ==> k in acc || k in longs.Values || k in shorts.Values
    ensures i < |args| && StartsWith(args[i], "--") && Replace(args[i], "--", []) !in longs ==> r == Panic("Should get key")
    ensures i < |args| && StartsWith(args[i], "--") && Replace(args[i], "--", []) in longs && i + 1 == |args| ==> r == Panic(UnwrapNone)
    ensures (i < |args| && StartsWith(args[i], "-") && !StartsWith(args[i], "--")
             && exists c :: c in args[i][1..] && [c] !in shorts) ==> r.Panic?
    ensures i < |args| && StartsWith(args[i], "-") && !StartsWith(args[i], "--") && i + |args[i]| > |args| ==> r.Panic?
    decreases |args| - i
  {
    if i == |args| || !StartsWith(args[i], "-") then Done((acc, i))
    else if StartsWith(args[i], "--") then
      var name := Replace(args[i], "--", []);
      if name !in longs then Panic("Should get key")
      else if i + 1 == |args| then Panic(UnwrapNone)
      else Scan(args, i + 2, longs, shorts, acc[longs[name] := Flag(args[i + 1])])
    else
      match ScanShort(args[i][1..], args, i + 1, shorts, acc)
      case Panic(m) => Panic(m)
      case Done((acc', j)) => Scan(args, j, longs, shorts, acc')
  }

  predicate RequiredPresent<K>(flags: seq<K>, config: K -> FlagConfiguration, given: map<K, Flag>) {
    forall f :: f in flags && config(f).presence == Required ==> f in given
  }

  /**
   * What `read_flags` computes: the flags given and how many arguments they
   * took, or the panic it raises.
   */
  function ReadFlagsSpec<K>(args: seq<string>, flags: seq<K>, config: K -> FlagConfiguration)
    : (r: Outcome<(map<K, Flag>, nat)>)
    ensures r.Done? ==> RequiredPresent(flags, config, r.value.0)
    ensures r.Done? ==> forall k :: k in r.value.0 ==> k in flags
    ensures r.Done? ==> r.value.1 <= |args| && (r.value.1 == |args| || !StartsWith(args[r.value.1], "-"))
    ensures (|args| > 0 && StartsWith(args[0], "--")
             && forall f :: f in flags ==> config(f).longName != Replace(args[0], "--", [])) ==> r == Panic("Should get key")
    ensures |args| == 1 && StartsWith(args[0], "--") ==> r.Panic?
    ensures (|args| > 0 && StartsWith(args[0], "-") && !StartsWith(args[0], "--")
             && exists c :: c in args[0][1..] && forall f :: f in flags ==> config(f).shortName != Some([c])) ==> r.Panic?
  {
    match Scan(args, 0, LongNames(flags, config), ShortNames(flags, config), map[])
    case Panic(m) => Panic(m)
    case Done((given, i)) =>
      if RequiredPresent(flags, config, given) then Done((given, i)) else Panic("Flag is required")
  }

  /**
   * `read_flags`: reads flags from the front of `args` into a fresh flag
   * map; `rest` is what is left for the caller.
   */
  method ReadFlags<K(==)>(args: seq<string>, flags: seq<K>, config: K -> FlagConfiguration)
    returns (r: Outcome<FlagMap<K>>, rest: seq<string>)
    ensures r.Done? <==> ReadFlagsSpec(args, flags, config).Done?
    ensures r.Panic? ==> r.message == ReadFlagsSpec(args, flags, config).message
    ensures r.Done? ==>
      && fresh(r.value)
      && r.value.entries == ReadFlagsSpec(args, flags, config).value.0
      && rest == args[ReadFlagsSpec(args, flags, config).value.1..]
  {
    var longs := LongNames(flags, config);
    var shorts := ShortNames(flags, config);
    var flagMap := new FlagMap<K>();
    var i := 0;
    while i < |args| && StartsWith(args[i], "-")
      invariant i <= |args|
      invariant fresh(flagMap)
      invariant Scan(args, 0, longs, shorts, map[]) == Scan(args, i, longs, shorts, flagMap.entries)
      decreases |args| - i
    {
      var flagName := args[i];
      i := i + 1;
      if StartsWith(flagName, "--") {
        var name := Replace(flagName, "--", []);
        if name !in longs {
          return Panic("Should get key"), [];
        }
        if i == |args| {
          return Panic(UnwrapNone), [];
        }
        flagMap.Insert(longs[name], Flag(args[i]));
        i := i + 1;
      } else {
        var group := ReadShortGroup(flagMap, flagName[1..], args, i, shorts);
        if group.Panic? {
          return Panic(group.message), [];
        }
        i := group.value;
      }
    }
    var present := CheckRequired(flagMap, flags, config);
    if !present {
      return Panic("Flag is required"), [];
    }
    r, rest := Done(flagMap), args[i..];
  }

  /**
   * The inner loop of `read_flags` over the letters of one `-abc` group,
   * starting at argument `i`; returns the position after the values taken.
   */
  method ReadShortGroup<K(==)>(flagMap: FlagMap<K>, letters: string, args: seq<string>, i: nat, shorts: map<string, K>)
    returns (r: Outcome<nat>)
    requires i <= |args|
    modifies flagMap
    ensures r.Done? <==> ScanShort(letters, args, i, shorts, old(flagMap.entries)).Done?
    ensures r.Panic? ==> r.message == ScanShort(letters, args, i, shorts, old(flagMap.entries)).message
    ensures r.Done? ==> r.value == ScanShort(letters, args, i, shorts, old(flagMap.entries)).value.1
    ensures r.Done? ==> flagMap.entries == ScanShort(letters, args, i, shorts, old(flagMap.entries)).value.0
  {
    var j := i;
    for k := 0 to |letters|
      invariant j == i + k <= |args|
      invariant ScanShort(letters, args, i, shorts, old(flagMap.entries)) == ScanShort(letters[k..], args, j, shorts, flagMap.entries)
    {
      assert letters[k..][1..] == letters[k + 1..];
      var shortName := [letters[k]];
      if shortName !in shorts {
        return Panic("Should get key");
      }
      if j == |args| {
        return Panic(UnwrapNone);
      }
      flagMap.Insert(shorts[shortName], Flag(args[j]));
      j := j + 1;
    }
    r := Done(j);
  }

  /** The final loop of `read_flags`: every required flag was given. */
  method CheckRequired<K(==)>(flagMap: FlagMap<K>, flags: seq<K>, config: K -> FlagConfiguration) returns (ok: bool)
    ensures ok <==> RequiredPresent(flags, config, flagMap.entries)
  {
    for q := 0 to |flags|
      invariant forall p :: 0 <= p < q && config(flags[p]).presence == Required ==> flags[p] in flagMap.entries
    {
      if config(flags[q]).presence == Required && !flagMap.Has(flags[q]) {
        return false;
      }
    }
    return true;
  }

  /** A `--name value` pair records the value under the flag with that long name. */
  lemma ScanLongFlag<K>(args: seq<string>, i: nat, name: string, longs: map<string, K>, shorts: map<string, K>, acc: map<K, Flag>)
    requires i + 1 < |args| && args[i] == "--" + name
    requires NoMatchBefore(name, "--", |name|) && name in longs
    ensures Scan(args, i, longs, shorts, acc) == Scan(args, i + 2, longs, shorts, acc[longs[name] := Flag(args[i + 1])])
  {
    assert StartsWith(args[i], "-") && StartsWith(args[i], "--");
    ReplacePrefixAbsent(name, "--");
  }

  /** Giving a long flag twice keeps the last value. */
  lemma LastValueWins<K>(name: string, first: string, second: string, longs: map<string, K>, shorts: map<string, K>)
    requires NoMatchBefore(name, "--", |name|) && name in longs
    ensures Scan(["--" + name, first, "--" + name, second], 0, longs, shorts, map[])
         == Done((map[longs[name] := Flag(second)], 4))
  {
    var args := ["--" + name, first, "--" + name, second];
    var k := longs[name];
    ScanLongFlag(args, 0, name, longs, shorts, map[]);
    ScanLongFlag(args, 2, name, longs, shorts, map[k := Flag(first)]);
    assert map[k := Flag(first)][k := Flag(second)] == map[k := Flag(second)];
  }

  /** The flags named by the letters of a short group. */
  function ShortKeys<K>(letters: string, shorts: map<string, K>): (keys: set<K>)
    requires forall c :: c in letters ==> [c] in shorts
    ensures forall p :: 0 <= p < |letters| ==> shorts[[letters[p]]] in keys
    decreases |letters|
  {
    if letters == [] then {}
    else
      var tail := letters[1..];
      assert forall p :: 1 <= p < |letters| ==> letters[p] == tail[p - 1];
      {shorts[[letters[0]]]} + ShortKeys(tail, shorts)
  }

  /**
   * A group `-abc` whose letters name distinct flags takes the next
   * `|letters|` arguments, in order, as their values, and leaves every other
   * flag as it was.
   */
  lemma {:induction false} ShortGroupTakesValuesInOrder<K>(letters: string, args: seq<string>, j: nat, shorts: map<string, K>, acc: map<K, Flag>)
    requires forall c :: c in letters ==> [c] in shorts
    requires forall p, q :: 0 <= p < q < |letters| ==> shorts[[letters[p]]] != shorts[[letters[q]]]
    requires j + |letters| <= |args|
    ensures var r := ScanShort(letters, args, j, shorts, acc);
      r.Done? && r.value.1 == j + |letters| &&
      r.value.0.Keys == acc.Keys + ShortKeys(letters, shorts) &&
      (forall p :: 0 <= p < |letters| ==> r.value.0[shorts[[letters[p]]]] == Flag(args[j + p])) &&
      (forall k :: k in acc && k !in ShortKeys(letters, shorts) ==> r.value.0[k] == acc[k])
    decreases |letters|
  {
    if letters != [] {
      var k0 := shorts[[letters[0]]];
      var acc' := acc[k0 := Flag(args[j])];
      var tail := letters[1..];
      assert forall c :: c in tail ==> c in letters;
      ShortGroupTakesValuesInOrder(tail, args, j + 1, shorts, acc');
      var r := ScanShort(tail, args, j + 1, shorts, acc');
      assert ScanShort(letters, args, j, shorts, acc) == r;
      assert k0 !in ShortKeys(tail, shorts) by {
        ShortKeysIndex(tail, shorts, k0);
        forall p | 0 <= p < |tail| ensures shorts[[tail[p]]] != k0 {
          assert tail[p] == letters[p + 1];
        }
      }
      forall p | 0 <= p < |letters|
        ensures r.value.0[shorts[[letters[p]]]] == Flag(args[j + p])
      {
        if p > 0 {
          assert letters[p] == tail[p - 1];
        }
      }
    }
  }

  /** Every flag of `ShortKeys` is named by some letter. */
  lemma {:induction false} ShortKeysIndex<K>(letters: string, shorts: map<string, K>, k: K)
    requires forall c :: c in letters ==> [c] in shorts
    ensures k in ShortKeys(letters, shorts) ==> exists p :: 0 <= p < |letters| && shorts[[letters[p]]] == k
    decreases |letters|
  {
    if letters != [] && k in ShortKeys(letters, shorts) && k != shorts[[letters[0]]] {
      var tail := letters[1..];
      assert forall c :: c in tail ==> c in letters;
      ShortKeysIndex(tail, shorts, k);
      var p :| 0 <= p < |tail| && shorts[[tail[p]]] == k;
      assert letters[p + 1] == tail[p];
    }
  }

  /** When the flag loop succeeds, `read_flags` panics exactly when a required flag is missing. */
  lemma ReadFlagsRequiredOnly<K>(args: seq<string>, flags: seq<K>, config: K -> FlagConfiguration)
    requires Scan(args, 0, LongNames(flags, config), ShortNames(flags, config), map[]).Done?
    ensures ReadFlagsSpec(args, flags, config).Panic? <==>
      exists f :: f in flags && config(f).presence == Required &&
        f !in Scan(args, 0, LongNames(flags, config), ShortNames(flags, config), map[]).value.0
  {
  }
}
