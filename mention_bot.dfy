/**
 * The configuration edits of the mention-bot config maker: a `.mention-bot`
 * file is a JSON object, here a map from field names to values, and the
 * `set`, `append`, `remove` and `sync` commands change it in place.
 *
 * Reading and writing the file, the git steps around it and printing are not
 * part of this model; a config is given as a value or as a `Config` object.
 */
module MentionBot {
  import opened Wrappers

  /** An entry of `alwaysNotifyForPaths` / `fallbackNotifyForPaths`. */
  datatype Entry = Entry(name: string, files: seq<string>, skipTeamPrs: bool)

  /** The JSON values a config holds. */
  datatype Value =
    | Strings(items: seq<string>)
    | Entries(entries: seq<Entry>)
    | Number(n: int)
    | Text(text: string)
    | Flag(flag: bool)

  type Conf = map<string, Value>

  datatype MentionError =
    | NoEntryNamed(name: string)   // find() raises ValueError
    | MissingField(key: string)    // conf[var] raises KeyError

  /** The fields whose value is a list of strings. */
  const ListFields: set<string> := {"userBlacklist", "fileBlacklist", "userBlacklistForPR", "requiredOrgs", "actions"}

  /** The fields whose value is a list of notify entries. */
  const NotifyFields: set<string> := {"alwaysNotifyForPaths", "fallbackNotifyForPaths"}

  /** The boolean fields `set` writes. */
  const FlagFields: set<string> := {"findPotentialReviewers", "skipAlreadyAssignedPR", "skipAlreadyMentionedPR",
    "assignToReviewer", "createReviewRequest", "createComment", "delayed", "skipCollaboratorPR"}

  /** Every field `set` writes: the flags and the number and text fields. */
  const SetFields: set<string> :=
    FlagFields + {"maxReviewers", "numFilesToCheck", "message", "skipTitle", "withLabel", "delayedUntil"}

  /** `conf.get(key, [])` on a list-of-strings field. */
  function ListOf(c: Conf, key: string): seq<string> {
    if key in c && c[key].Strings? then c[key].items else []
  }

  /** `conf.get(key, [])` on a notify field. */
  function EntriesOf(c: Conf, key: string): seq<Entry> {
    if key in c && c[key].Entries? then c[key].entries else []
  }

  // ---------------------------------------------------------------------------
  // find
  // ---------------------------------------------------------------------------

  /** The index of the first element satisfying `p`; `None` stands for the `ValueError`. */
  function FirstWhere<T>(xs: seq<T>, p: T -> bool): (r: Option<nat>)
    ensures r.Some? ==> r.value < |xs| && p(xs[r.value]) && forall j :: 0 <= j < r.value ==> !p(xs[j])
    ensures r.None? <==> forall j :: 0 <= j < |xs| ==> !p(xs[j])
  {
    FirstFrom(xs, p, 0)
  }

  /** The index of the first element from position `i` on satisfying `p`. */
  function FirstFrom<T>(xs: seq<T>, p: T -> bool, i: nat): (r: Option<nat>)
    requires i <= |xs|
    ensures r.Some? ==> i <= r.value < |xs| && p(xs[r.value]) && forall j :: i <= j < r.value ==> !p(xs[j])
    ensures r.None? <==> forall j :: i <= j < |xs| ==> !p(xs[j])
    decreases |xs| - i
  {
    if i == |xs| then None
    else if p(xs[i]) then Some(i)
    else FirstFrom(xs, p, i + 1)
  }

  /** `find(list_, func)`: an indexed loop returning at the first element `func` accepts. */
  method Find<T>(xs: seq<T>, p: T -> bool) returns (r: Option<nat>)
    ensures r == FirstWhere(xs, p)
  {
    var i := 0;
    while i < |xs|
      invariant 0 <= i <= |xs|
      invariant forall j :: 0 <= j < i ==> !p(xs[j])
      invariant FirstWhere(xs, p) == FirstFrom(xs, p, i)
    {
      if p(xs[i]) {
        return Some(i);
      }
      i := i + 1;
    }
    return None;
  }

  /** Predicate of `find` used by the notify edits: `element["name"] == name`. */
  function HasName(name: string): Entry -> bool {
    (e: Entry) => e.name == name
  }

  // ---------------------------------------------------------------------------
  // The edits, as functions of the config
  // ---------------------------------------------------------------------------

  /** Appending, one by one, the values not yet in the list. */
  function AppendMissing(l: seq<string>, vs: seq<string>): seq<string>
    decreases |vs|
  {
    if vs == [] then l
    else
      var p := AppendMissing(l, vs[..|vs| - 1]);
      var v := vs[|vs| - 1];
      if v in p then p else p + [v]
  }

  /** `if u not in conf.get(key, []): conf.setdefault(key, []).append(u)` for each value. */
  function StringsAppended(c: Conf, key: string, vs: seq<string>): Conf
    decreases |vs|
  {
    if vs == [] then c
    else
      var p := StringsAppended(c, key, vs[..|vs| - 1]);
      var u := vs[|vs| - 1];
      if u in ListOf(p, key) then p else p[key := Strings(ListOf(p, key) + [u])]
  }

  /**
   * The `actions` field: an action not yet present is appended, and a missing
   * field starts as `["opened"]` unless the action is `opened` itself.
   */
  function ActionsAppended(c: Conf, actions: seq<string>): Conf
    decreases |actions|
  {
    if actions == [] then c
    else
      var p := ActionsAppended(c, actions[..|actions| - 1]);
      var a := actions[|actions| - 1];
      var l := ListOf(p, "actions");
      if a in l then p
      else
        var base := if "actions" in p then l else if a != "opened" then ["opened"] else [];
        p["actions" := Strings(base + [a])]
  }

  /**
   * A notify entry: an entry with that name gains the files it lacks and takes
   * the new `skipTeamPrs`; without one, a new entry goes at the end.
   */
  function EntriesAppended(entries: seq<Entry>, name: string, files: seq<string>, skipTeamPrs: bool): seq<Entry> {
    match FirstWhere(entries, HasName(name))
    case Some(i) => entries[i := entries[i].(files := AppendMissing(entries[i].files, files), skipTeamPrs := skipTeamPrs)]
    case None => entries + [Entry(name, files, skipTeamPrs)]
  }

  /** The notify field after `append`; `setdefault` creates it even when nothing else changes. */
  function NotifyAppended(c: Conf, key: string, name: string, files: seq<string>, skipTeamPrs: bool): Conf {
    c[key := Entries(EntriesAppended(EntriesOf(c, key), name, files, skipTeamPrs))]
  }

  /** `l.remove(v)`: the first occurrence of `v` goes, if there is one. */
  function RemoveFirst(l: seq<string>, v: string): seq<string>
    decreases |l|
  {
    if l == [] then []
    else if l[0] == v then l[1..]
    else [l[0]] + RemoveFirst(l[1..], v)
  }

  /** Removing, one by one, the first occurrence of each value. */
  function RemoveEach(l: seq<string>, vs: seq<string>): seq<string>
    decreases |vs|
  {
    if vs == [] then l
    else
      var p := RemoveEach(l, vs[..|vs| - 1]);
      var v := vs[|vs| - 1];
      if v in p then RemoveFirst(p, v) else p
  }

  /** `if u in conf.get(key, []): conf.get(key).remove(u)` for each value. */
  function StringsRemoved(c: Conf, key: string, vs: seq<string>): Conf
    decreases |vs|
  {
    if vs == [] then c
    else
      var p := StringsRemoved(c, key, vs[..|vs| - 1]);
      var u := vs[|vs| - 1];
      if u in ListOf(p, key) then p[key := Strings(RemoveFirst(ListOf(p, key), u))] else p
  }

  /**
   * A notify entry removed: nothing when the field is absent; otherwise the named
   * entry goes (no files given) or loses the given files, and an emptied field is
   * deleted. An unknown name raises.
   */
  function NotifyRemoved(c: Conf, key: string, name: string, files: seq<string>): Result<Conf, MentionError> {
    if key !in c then Success(c)
    else
      var l := EntriesOf(c, key);
      match FirstWhere(l, HasName(name))
      case None => Failure(NoEntryNamed(name))
      case Some(i) =>
        var l' := if files == [] then l[..i] + l[i + 1..] else l[i := l[i].(files := RemoveEach(l[i].files, files))];
        Success(if |l'| == 0 then c - {key} else c[key := Entries(l')])
  }

  /** The arguments `set` reads. */
  datatype SetArgs = SetArgs(numberOfUsers: int, numberOfFiles: int, message: string, flag: bool,
                             title: string, labelName: string, time: string)

  /** The value `set` writes into field `name`, if it handles that field. */
  function SetValue(name: string, args: SetArgs): Option<Value> {
    if name == "maxReviewers" then Some(Number(args.numberOfUsers))
    else if name == "numFilesToCheck" then Some(Number(args.numberOfFiles))
    else if name == "message" then Some(Text(args.message))
    else if name in FlagFields then Some(Flag(args.flag))
    else if name == "skipTitle" then Some(Text(args.title))
    else if name == "withLabel" then Some(Text(args.labelName))
    else if name == "delayedUntil" then Some(Text(args.time))
    else None
  }

  function FieldSet(c: Conf, name: string, args: SetArgs): Conf {
    match SetValue(name, args)
    case Some(v) => c[name := v]
    case None => c
  }

  /** The arguments `append` and `remove` read. */
  datatype EditArgs = EditArgs(user: seq<string>, file: seq<string>, org: seq<string>, action: seq<string>,
                               name: string, skipTeamPrs: bool)

  /** The values an `append` / `remove` of a list field takes from the arguments. */
  function ListArgument(name: string, args: EditArgs): seq<string> {
    if name == "fileBlacklist" then args.file
    else if name == "requiredOrgs" then args.org
    else if name == "actions" then args.action
    else args.user
  }

  /** `append_command` on one config. */
  function Appended(c: Conf, name: string, args: EditArgs): Conf {
    if name == "actions" then ActionsAppended(c, args.action)
    else if name in ListFields then StringsAppended(c, name, ListArgument(name, args))
    else if name in NotifyFields then NotifyAppended(c, name, args.name, args.file, args.skipTeamPrs)
    else c
  }

  /** `remove_command` on one config. */
  function Removed(c: Conf, name: string, args: EditArgs): Result<Conf, MentionError> {
    if name in ListFields then Success(StringsRemoved(c, name, ListArgument(name, args)))
    else if name in NotifyFields then NotifyRemoved(c, name, args.name, args.file)
    else Success(c)
  }

  /** A config whose list fields hold lists of strings and whose notify fields hold entries. */
  predicate WellTyped(c: Conf) {
    forall k :: k in c ==> (k in ListFields ==> c[k].Strings?) && (k in NotifyFields ==> c[k].Entries?)
  }

  // ---------------------------------------------------------------------------
  // A config edited in place
  // ---------------------------------------------------------------------------

  /** The `conf` dictionary the commands edit. */
  class Config {
    var fields: Conf

    constructor (fields: Conf)
      ensures this.fields == fields
    {
      this.fields := fields;
    }

    /** `set_command`: one assignment, chosen by the field name. */
    method Set(name: string, args: SetArgs)
      modifies this
      ensures fields == FieldSet(old(fields), name, args)
    {
      if name == "maxReviewers" {
        fields := fields["maxReviewers" := Number(args.numberOfUsers)];
      } else if name == "numFilesToCheck" {
        fields := fields["numFilesToCheck" := Number(args.numberOfFiles)];
      } else if name == "message" {
        fields := fields["message" := Text(args.message)];
      } else if name in FlagFields {
        fields := fields[name := Flag(args.flag)];
      } else if name == "skipTitle" {
        fields := fields["skipTitle" := Text(args.title)];
      } else if name == "withLabel" {
        fields := fields["withLabel" := Text(args.labelName)];
      } else if name == "delayedUntil" {
        fields := fields["delayedUntil" := Text(args.time)];
      }
    }

    /** The loop of `append_command` over a list-of-strings field other than `actions`. */
    method AppendStrings(key: string, values: seq<string>)
      modifies this
      requires key in fields ==> fields[key].Strings?
      ensures fields == StringsAppended(old(fields), key, values)
    {
      var i := 0;
      while i < |values|
        invariant 0 <= i <= |values|
        invariant fields == StringsAppended(old(fields), key, values[..i])
      {
        assert values[..i + 1][..i] == values[..i];
        var u := values[i];
        if u !in ListOf(fields, key) {
          fields := fields[key := Strings(ListOf(fields, key) + [u])];
        }
        i := i + 1;
      }
      assert values[..|values|] == values;
    }

    /** The loop of `append_command` over `actions`. */
    method AppendActions(actions: seq<string>)
      modifies this
      requires "actions" in fields ==> fields["actions"].Strings?
      ensures fields == ActionsAppended(old(fields), actions)
    {
      var i := 0;
      while i < |actions|
        invariant 0 <= i <= |actions|
        invariant fields == ActionsAppended(old(fields), actions[..i])
      {
        assert actions[..i + 1][..i] == actions[..i];
        var a := actions[i];
        var current := ListOf(fields, "actions");
        if a !in current {
          if a != "opened" {
            var list := if "actions" in fields then current else ["opened"];
            fields := fields["actions" := Strings(list + [a])];
          } else {
            fields := fields["actions" := Strings(current + [a])];
          }
        }
        i := i + 1;
      }
      assert actions[..|actions|] == actions;
    }

    /** `append_command` on a notify field: `find` the entry by name, then extend it or add one. */
    method AppendNotify(key: string, name: string, files: seq<string>, skipTeamPrs: bool)
      modifies this
      requires key in fields ==> fields[key].Entries?
      ensures fields == NotifyAppended(old(fields), key, name, files, skipTeamPrs)
    {
      var list := EntriesOf(fields, key);
      var found := Find(list, HasName(name));
      if found.Some? {
        var i := found.value;
        var entryFiles := list[i].files;
        var j := 0;
        while j < |files|
          invariant 0 <= j <= |files|
          invariant entryFiles == AppendMissing(list[i].files, files[..j])
        {
          assert files[..j + 1][..j] == files[..j];
          if files[j] !in entryFiles {
            entryFiles := entryFiles + [files[j]];
          }
          j := j + 1;
        }
        assert files[..|files|] == files;
        list := list[i := list[i].(files := entryFiles, skipTeamPrs := skipTeamPrs)];
      } else {
        list := list + [Entry(name, files, skipTeamPrs)];
      }
      fields := fields[key := Entries(list)];
    }

    /** The loop of `remove_command` over a list-of-strings field. */
    method RemoveStrings(key: string, values: seq<string>)
      modifies this
      requires key in fields ==> fields[key].Strings?
      ensures fields == StringsRemoved(old(fields), key, values)
    {
      var i := 0;
      while i < |values|
        invariant 0 <= i <= |values|
        invariant fields == StringsRemoved(old(fields), key, values[..i])
      {
        assert values[..i + 1][..i] == values[..i];
        var u := values[i];
        if u in ListOf(fields, key) {
          fields := fields[key := Strings(RemoveFirst(ListOf(fields, key), u))];
        }
        i := i + 1;
      }
      assert values[..|values|] == values;
    }

    /** `remove_command` on a notify field; when `find` raises, the config is left as it was. */
    method RemoveNotify(key: string, name: string, files: seq<string>) returns (r: Outcome<MentionError>)
      modifies this
      requires key in fields ==> fields[key].Entries?
      ensures NotifyRemoved(old(fields), key, name, files).Success? ==>
        r == Pass && fields == NotifyRemoved(old(fields), key, name, files).value
      ensures NotifyRemoved(old(fields), key, name, files).Failure? ==>
        r == Fail(NotifyRemoved(old(fields), key, name, files).error) && fields == old(fields)
    {
      if key !in fields {
        return Pass;
      }
      var list := EntriesOf(fields, key);
      var found := Find(list, HasName(name));
      if found.None? {
        return Fail(NoEntryNamed(name));
      }
      var i := found.value;
      if files == [] {
        list := list[..i] + list[i + 1..];
      } else {
        var entryFiles := list[i].files;
        var j := 0;
        while j < |files|
          invariant 0 <= j <= |files|
          invariant entryFiles == RemoveEach(list[i].files, files[..j])
        {
          assert files[..j + 1][..j] == files[..j];
          if files[j] in entryFiles {
            entryFiles := RemoveFirst(entryFiles, files[j]);
          }
          j := j + 1;
        }
        assert files[..|files|] == files;
        list := list[i := list[i].(files := entryFiles)];
      }
      if |list| == 0 {
        fields := fields - {key};
      } else {
        fields := fields[key := Entries(list)];
      }
      return Pass;
    }

    /** `append_command` on this config: the branch chosen by the field name. */
    method Append(name: string, args: EditArgs)
      modifies this
      requires WellTyped(fields)
      ensures fields == Appended(old(fields), name, args)
    {
      if name == "actions" {
        AppendActions(args.action);
      } else if name in ListFields {
        AppendStrings(name, ListArgument(name, args));
      } else if name in NotifyFields {
        AppendNotify(name, args.name, args.file, args.skipTeamPrs);
      }
    }

    /** `remove_command` on this config: the branch chosen by the field name. */
    method Remove(name: string, args: EditArgs) returns (r: Outcome<MentionError>)
      modifies this
      requires WellTyped(fields)
      ensures Removed(old(fields), name, args).Success? ==> r == Pass && fields == Removed(old(fields), name, args).value
      ensures Removed(old(fields), name, args).Failure? ==>
        r == Fail(Removed(old(fields), name, args).error) && fields == old(fields)
    {
      r := Pass;
      if name in ListFields {
        RemoveStrings(name, ListArgument(name, args));
      } else if name in NotifyFields {
        r := RemoveNotify(name, args.name, args.file);
      }
    }
  }

  // ---------------------------------------------------------------------------
  // sync
  // ---------------------------------------------------------------------------

  /** `output_set` after the configs: their lists joined, each value once, in first-seen order. */
  function SyncUnion(configs: seq<Conf>, key: string): seq<string>
    decreases |configs|
  {
    if configs == [] then []
    else AppendMissing(SyncUnion(configs[..|configs| - 1], key), ListOf(configs[|configs| - 1], key))
  }

  /** `sync_command`: every config gets the union of the field; a config without it raises a `KeyError`. */
  function Synced(configs: seq<Conf>, key: string): Result<seq<Conf>, MentionError> {
    if exists i :: 0 <= i < |configs| && key !in configs[i] then Failure(MissingField(key))
    else
      var u := SyncUnion(configs, key);
      Success(seq(|configs|, i requires 0 <= i < |configs| => configs[i][key := Strings(u)]))
  }

  /** `sync_command`, with the configs of the repositories that have one, in order. */
  method Sync(configs: seq<Conf>, key: string) returns (r: Result<seq<Conf>, MentionError>)
    requires forall i :: 0 <= i < |configs| && key in configs[i] ==> configs[i][key].Strings?
    ensures r == Synced(configs, key)
  {
    var union: seq<string> := [];
    var i := 0;
    while i < |configs|
      invariant 0 <= i <= |configs|
      invariant forall j :: 0 <= j < i ==> key in configs[j]
      invariant union == SyncUnion(configs[..i], key)
    {
      assert configs[..i + 1][..i] == configs[..i];
      if key !in configs[i] {
        return Failure(MissingField(key));
      }
      union := AppendMissing(union, ListOf(configs[i], key));
      i := i + 1;
    }
    assert configs[..|configs|] == configs;
    assert !exists j :: 0 <= j < |configs| && key !in configs[j];
    var out: seq<Conf> := [];
    i := 0;
    while i < |configs|
      invariant 0 <= i <= |configs| && |out| == i
      invariant forall j :: 0 <= j < i ==> out[j] == configs[j][key := Strings(union)]
    {
      out := out + [configs[i][key := Strings(union)]];
      i := i + 1;
    }
    assert out == seq(|configs|, j requires 0 <= j < |configs| => configs[j][key := Strings(union)]);
    return Success(out);
  }
}
