/**
 * What the config edits promise: appends keep the existing order, add only
 * missing values and are idempotent; removals take away one occurrence per
 * value; the notify edits act on the first entry with the name; `set` writes
 * one field; `sync` gives every config the union of the field.
 */
module MentionBotProperties {
  import opened Wrappers
  import opened MentionBot

  // ---------------------------------------------------------------------------
  // Appending missing values
  // ---------------------------------------------------------------------------

  /**
   * Appending the missing values keeps the old list as a prefix, ends up holding
   * exactly the old and the new values, and adds no repeats.
   */
  lemma {:induction false} AppendMissingIs(l: seq<string>, vs: seq<string>)
    ensures |AppendMissing(l, vs)| >= |l| && AppendMissing(l, vs)[..|l|] == l
    ensures forall x :: x in AppendMissing(l, vs) <==> x in l || x in vs
    ensures NoRepeats(l) ==> NoRepeats(AppendMissing(l, vs))
    decreases |vs|
  {
    if vs != [] {
      var pre := vs[..|vs| - 1];
      AppendMissingIs(l, pre);
      var p := AppendMissing(l, pre);
      if vs[|vs| - 1] !in p {
        assert (p + [vs[|vs| - 1]])[..|l|] == p[..|l|];
      }
      assert vs == pre + [vs[|vs| - 1]];
    }
  }

  /** When every value is already in the list, nothing is appended. */
  lemma {:induction false} AppendPresent(l: seq<string>, vs: seq<string>)
    requires forall v :: v in vs ==> v in l
    ensures AppendMissing(l, vs) == l
    decreases |vs|
  {
    if vs != [] {
      assert forall v :: v in vs[..|vs| - 1] ==> v in vs;
      AppendPresent(l, vs[..|vs| - 1]);
    }
  }

  /** Appending the same values twice is appending them once. */
  lemma AppendMissingIdempotent(l: seq<string>, vs: seq<string>)
    ensures AppendMissing(AppendMissing(l, vs), vs) == AppendMissing(l, vs)
  {
    AppendMissingIs(l, vs);
    AppendPresent(AppendMissing(l, vs), vs);
  }

  /**
   * A list field after `append`: the missing values go at its end, and the field
   * is only created when something is appended. No other field changes.
   */
  lemma {:induction false} StringsAppendedIs(c: Conf, key: string, vs: seq<string>)
    requires key in c ==> c[key].Strings?
    ensures var l := AppendMissing(ListOf(c, key), vs);
      StringsAppended(c, key, vs) == if l == ListOf(c, key) then c else c[key := Strings(l)]
    decreases |vs|
  {
    if vs != [] {
      var pre := vs[..|vs| - 1];
      StringsAppendedIs(c, key, pre);
      AppendMissingIs(ListOf(c, key), pre);
      var p := StringsAppended(c, key, pre);
      assert ListOf(p, key) == AppendMissing(ListOf(c, key), pre);
    }
  }

  /** Repeating an `append` of a list field changes nothing more. */
  lemma StringsAppendedIdempotent(c: Conf, key: string, vs: seq<string>)
    requires key in c ==> c[key].Strings?
    ensures StringsAppended(StringsAppended(c, key, vs), key, vs) == StringsAppended(c, key, vs)
  {
    var once := StringsAppended(c, key, vs);
    StringsAppendedIs(c, key, vs);
    StringsAppendedIs(once, key, vs);
    AppendMissingIdempotent(ListOf(c, key), vs);
  }

  // ---------------------------------------------------------------------------
  // Actions
  // ---------------------------------------------------------------------------

  /**
   * The `actions` field after appending: the missing actions at the end of the
   * existing list, or of `["opened"]` when the field was absent.
   */
  lemma {:induction false} ActionsAppendedIs(c: Conf, actions: seq<string>)
    requires "actions" in c ==> c["actions"].Strings?
    requires actions != []
    ensures var base := if "actions" in c then ListOf(c, "actions") else ["opened"];
      ActionsAppended(c, actions) == c["actions" := Strings(AppendMissing(base, actions))]
    decreases |actions|
  {
    var pre := actions[..|actions| - 1];
    var base := if "actions" in c then ListOf(c, "actions") else ["opened"];
    if pre != [] {
      ActionsAppendedIs(c, pre);
    } else {
      assert ActionsAppended(c, pre) == c;
      assert AppendMissing(base, pre) == base;
      var a := actions[0];
      assert AppendMissing(base, actions) == if a in base then base else base + [a];
      assert ActionsAppended(c, actions) == if a in ListOf(c, "actions") then c
        else c["actions" := Strings((if "actions" in c then ListOf(c, "actions") else if a != "opened" then ["opened"] else []) + [a])];
      if "actions" in c {
        assert c["actions" := Strings(base)] == c;
      } else if a == "opened" {
        assert [] + [a] == base;
      } else {
        assert ["opened"] + [a] == base + [a];
      }
    }
  }

  /** Appending actions to a config without the field gives a list starting with `opened`, holding each action once. */
  lemma ActionsStartWithOpened(c: Conf, actions: seq<string>)
    requires "actions" !in c && actions != []
    ensures var l := ListOf(ActionsAppended(c, actions), "actions");
      |l| >= 1 && l[0] == "opened" && NoRepeats(l) && forall a :: a in actions ==> a in l
  {
    ActionsAppendedIs(c, actions);
    AppendMissingIs(["opened"], actions);
    assert NoRepeats(["opened"]) by {
      forall v ensures multiset(["opened"])[v] <= 1 {
        assert multiset(["opened"]) == multiset{"opened"};
      }
    }
  }

  // ---------------------------------------------------------------------------
  // Notify entries
  // ---------------------------------------------------------------------------

  /** `find` yields `i` when `i` is the first position `p` holds at. */
  lemma FirstWhereAt<T>(xs: seq<T>, p: T -> bool, i: nat)
    requires i < |xs| && p(xs[i]) && forall j :: 0 <= j < i ==> !p(xs[j])
    ensures FirstWhere(xs, p) == Some(i)
  {
  }

  /**
   * After a notify append, the first entry with the name has the new
   * `skipTeamPrs` and every given file; the entries before it are untouched and
   * an entry that existed keeps its old files at the front and gains only the
   * files it lacked, each once.
   */
  lemma EntriesAppendedIs(entries: seq<Entry>, name: string, files: seq<string>, skipTeamPrs: bool)
    ensures var r := EntriesAppended(entries, name, files, skipTeamPrs);
      FirstWhere(r, HasName(name)).Some? &&
      var j := FirstWhere(r, HasName(name)).value;
      r[j].skipTeamPrs == skipTeamPrs && (forall f :: f in files ==> f in r[j].files) &&
      (forall k :: 0 <= k < j ==> r[k] == entries[k]) &&
      (j < |entries| ==> (|r| == |entries| && |r[j].files| >= |entries[j].files| &&
         r[j].files[..|entries[j].files|] == entries[j].files &&
         (forall f :: f in r[j].files <==> f in entries[j].files || f in files) &&
         (NoRepeats(entries[j].files) ==> NoRepeats(r[j].files)) &&
         forall k :: j < k < |r| ==> r[k] == entries[k])) &&
      (j == |entries| ==> r == entries + [Entry(name, files, skipTeamPrs)])
  {
    var r := EntriesAppended(entries, name, files, skipTeamPrs);
    match FirstWhere(entries, HasName(name))
    case Some(i) =>
      AppendMissingIs(entries[i].files, files);
      FirstWhereAt(r, HasName(name), i);
    case None =>
      FirstWhereAt(r, HasName(name), |entries|);
  }

  /** Repeating a notify append changes nothing more. */
  lemma EntriesAppendedIdempotent(entries: seq<Entry>, name: string, files: seq<string>, skipTeamPrs: bool)
    ensures var once := EntriesAppended(entries, name, files, skipTeamPrs);
      EntriesAppended(once, name, files, skipTeamPrs) == once
  {
    var once := EntriesAppended(entries, name, files, skipTeamPrs);
    EntriesAppendedIs(entries, name, files, skipTeamPrs);
    var j := FirstWhere(once, HasName(name)).value;
    AppendPresent(once[j].files, files);
  }

  // ---------------------------------------------------------------------------
  // Removing values
  // ---------------------------------------------------------------------------

  /** `l.remove(v)` on a list without `v` leaves it as it is. */
  lemma {:induction false} RemoveAbsent(l: seq<string>, v: string)
    requires v !in l
    ensures RemoveFirst(l, v) == l
    decreases |l|
  {
    if l != [] {
      RemoveAbsent(l[1..], v);
      assert l == [l[0]] + l[1..];
    }
  }

  /** `l.remove(v)` cuts out the first occurrence of `v`. */
  lemma {:induction false} RemoveFirstAt(l: seq<string>, v: string) returns (i: nat)
    requires v in l
    ensures i < |l| && l[i] == v && v !in l[..i]
    ensures RemoveFirst(l, v) == l[..i] + l[i + 1..]
    decreases |l|
  {
    if l[0] == v {
      i := 0;
    } else {
      assert l == [l[0]] + l[1..];
      var t := l[1..];
      var k := RemoveFirstAt(t, v);
      i := k + 1;
      assert l[..i] == [l[0]] + t[..k];
      assert l[i + 1..] == t[k + 1..];
    }
  }

  /** `l.remove(v)` takes away one occurrence of `v`, if there is one. */
  lemma {:induction false} RemoveFirstCounts(l: seq<string>, v: string)
    ensures multiset(RemoveFirst(l, v)) == multiset(l) - multiset{v}
    decreases |l|
  {
    if v !in l {
      RemoveAbsent(l, v);
      assert multiset(l)[v] == 0;
      assert multiset(l) - multiset{v} == multiset(l);
    } else {
      var i := RemoveFirstAt(l, v);
      assert l == l[..i] + [v] + l[i + 1..];
      assert multiset(l) == multiset(l[..i]) + multiset{v} + multiset(l[i + 1..]);
    }
  }

  /** Taking away `b` and then `{v}` is taking away `b + {v}`. */
  lemma DifferenceStep(a: multiset<string>, b: multiset<string>, v: string)
    ensures (a - b) - multiset{v} == a - (b + multiset{v})
  {
    forall x ensures ((a - b) - multiset{v})[x] == (a - (b + multiset{v}))[x] {
    }
  }

  /** The values removed one by one take away one occurrence each: multiset difference. */
  lemma {:induction false} RemoveEachIs(l: seq<string>, vs: seq<string>)
    ensures multiset(RemoveEach(l, vs)) == multiset(l) - multiset(vs)
    decreases |vs|
  {
    if vs != [] {
      var pre := vs[..|vs| - 1];
      var v := vs[|vs| - 1];
      var p := RemoveEach(l, pre);
      RemoveEachIs(l, pre);
      RemoveFirstCounts(p, v);
      if v !in p {
        RemoveAbsent(p, v);
      }
      assert vs == pre + [v];
      DifferenceStep(multiset(l), multiset(pre), v);
    }
  }

  /** A list field after `remove`: its values lose one occurrence per removed value; no other field changes. */
  lemma {:induction false} StringsRemovedIs(c: Conf, key: string, vs: seq<string>)
    requires key in c ==> c[key].Strings?
    ensures StringsRemoved(c, key, vs) == if key in c then c[key := Strings(RemoveEach(ListOf(c, key), vs))] else c
    decreases |vs|
  {
    if vs != [] {
      StringsRemovedIs(c, key, vs[..|vs| - 1]);
      if key !in c {
        assert ListOf(c, key) == [];
      }
    }
  }

  /**
   * A notify removal fails exactly when the field is present and holds no entry
   * with the name; it deletes the field exactly when that leaves it empty, and
   * changes no other field.
   */
  lemma NotifyRemovedIs(c: Conf, key: string, name: string, files: seq<string>)
    requires key in c ==> c[key].Entries?
    ensures var r := NotifyRemoved(c, key, name, files);
      (r.Failure? <==> key in c && forall k :: 0 <= k < |EntriesOf(c, key)| ==> EntriesOf(c, key)[k].name != name) &&
      (r.Failure? ==> r.error == NoEntryNamed(name)) &&
      (r.Success? ==> ((forall k :: k != key ==> (k in r.value <==> k in c) && (k in c ==> r.value[k] == c[k])) &&
        (key in r.value <==> key in c && !(files == [] && |EntriesOf(c, key)| == 1)) &&
        (key in r.value ==> r.value[key].Entries? && |r.value[key].entries| > 0)))
  {
    var l := EntriesOf(c, key);
    if key in c {
      var f := FirstWhere(l, HasName(name));
      if f.None? {
        assert forall k :: 0 <= k < |l| ==> !HasName(name)(l[k]);
      }
    }
  }

  /**
   * A notify removal naming an existing entry: with no files the entry goes and
   * the others keep their order; with files the entry loses one occurrence of each.
   */
  lemma NotifyRemovedEntries(c: Conf, key: string, name: string, files: seq<string>, i: nat)
    requires key in c && c[key].Entries?
    requires FirstWhere(EntriesOf(c, key), HasName(name)) == Some(i)
    ensures NotifyRemoved(c, key, name, files).Success?
    ensures var l := EntriesOf(c, key); var l' := EntriesOf(NotifyRemoved(c, key, name, files).value, key);
      (files == [] ==> l' == l[..i] + l[i + 1..]) &&
      (files != [] ==> (|l'| == |l| && l'[i].name == name && l'[i].skipTeamPrs == l[i].skipTeamPrs &&
        multiset(l'[i].files) == multiset(l[i].files) - multiset(files) &&
        forall k :: 0 <= k < |l| && k != i ==> l'[k] == l[k]))
  {
    var l := EntriesOf(c, key);
    if files != [] {
      RemoveEachIs(l[i].files, files);
    }
  }

  // ---------------------------------------------------------------------------
  // set and sync
  // ---------------------------------------------------------------------------

  /**
   * `set` writes the one field it is given, with the argument its name selects,
   * and nothing else; a field it does not handle leaves the config as it was.
   */
  lemma FieldSetIs(c: Conf, name: string, args: SetArgs)
    ensures var r := FieldSet(c, name, args);
      (forall k :: k != name ==> (k in r <==> k in c) && (k in c ==> r[k] == c[k])) &&
      (name in SetFields ==> name in r) &&
      (name in FlagFields ==> r[name] == Flag(args.flag)) &&
      (name == "maxReviewers" ==> r[name] == Number(args.numberOfUsers)) &&
      (name == "numFilesToCheck" ==> r[name] == Number(args.numberOfFiles)) &&
      (name == "message" ==> r[name] == Text(args.message)) &&
      (name == "skipTitle" ==> r[name] == Text(args.title)) &&
      (name == "withLabel" ==> r[name] == Text(args.labelName)) &&
      (name == "delayedUntil" ==> r[name] == Text(args.time)) &&
      (name !in SetFields ==> r == c) &&
      (name in ListFields || name in NotifyFields ==> r == c)
  {
    if name in ListFields || name in NotifyFields {
      assert SetValue(name, args).None?;
    }
  }

  /** The union `sync` collects: every value of the field in any config, each once. */
  lemma {:induction false} SyncUnionIs(configs: seq<Conf>, key: string)
    ensures forall x :: x in SyncUnion(configs, key) <==> exists i :: 0 <= i < |configs| && x in ListOf(configs[i], key)
    ensures NoRepeats(SyncUnion(configs, key))
    decreases |configs|
  {
    if configs != [] {
      var pre := configs[..|configs| - 1];
      SyncUnionIs(pre, key);
      AppendMissingIs(SyncUnion(pre, key), ListOf(configs[|configs| - 1], key));
      assert forall i :: 0 <= i < |pre| ==> pre[i] == configs[i];
    }
  }

  /**
   * After `sync`, every config holds in the field exactly the values any config
   * held there, each once, and is otherwise unchanged; a config lacking the field
   * makes the command fail.
   */
  lemma SyncedIs(configs: seq<Conf>, key: string)
    ensures Synced(configs, key).Failure? <==> exists i :: 0 <= i < |configs| && key !in configs[i]
    ensures Synced(configs, key).Success? ==> var out := Synced(configs, key).value;
      |out| == |configs| &&
      forall i :: 0 <= i < |configs| ==> (key in out[i] && out[i][key].Strings? &&
        out[i] == configs[i][key := out[i][key]] && NoRepeats(out[i][key].items) &&
        (forall x :: x in out[i][key].items <==> exists j :: 0 <= j < |configs| && x in ListOf(configs[j], key)))
  {
    SyncUnionIs(configs, key);
  }
}
