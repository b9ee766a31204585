/** The Upgrader class: loading the scripts, resolving their dependencies, and migrating one
    checkpoint file. */
module MigrationRegistry {
  import opened Counting
  import opened MigrationSchedule
  import Text

  datatype Kind = Upgrade | Downgrade

  datatype Legacy = NoLegacy | LegacyVersion(version: int)

  /** The attributes of an upgrader script that never change. */
  datatype Script = Script(tag: Tag, fwdDepends: seq<Tag>, kind: Kind, legacy: Legacy)

  /** One Upgrader object: its script and its dependency list, which loading rewrites. */
  datatype Upgrader = Upgrader(script: Script, depends: seq<Tag>)

  /** The version information of a checkpoint file: a linear number, or the text of its tags. */
  datatype Version = CptVer(ver: int) | VersionTags(text: string) | NoVersion

  datatype FileResult =
    | NoVersionInfo                  // fatal: no version information
    | UnknownLegacy                  // KeyError while converting a linear version
    | Aborted(tags: set<Tag>)        // dependences impossible to resolve
    | NothingToDo
    | Written(tags: set<Tag>)        // the new tags, written back as text

  // ----- Tags as text

  /** The tags of a text: its words. */
  function TagsIn(text: string): set<Tag> {
    set w | w in Text.Words(text) :: Tag(w)
  }

  function Names(order: seq<Tag>): (names: seq<string>)
    ensures |names| == |order|
  {
    seq(|order|, k requires 0 <= k < |order| => order[k].name)
  }

  /** The text is the names of the tags, in some order, with spaces between them. */
  ghost predicate TextOf(tags: set<Tag>, text: string) {
    exists order :: Elements(order) == tags && Distinct(order) && text == Text.Join(Names(order), ' ')
  }

  ghost predicate AllWords(tags: set<Tag>) {
    forall t :: t in tags ==> Text.IsWord(t.name)
  }

  lemma TagsAreWords(text: string)
    ensures AllWords(TagsIn(text))
  {
  }

  lemma TagsWithin(text: string)
    ensures forall t: Tag :: t in TagsIn(text) <==> t.name in Text.Words(text)
  {
    forall t: Tag | t.name in Text.Words(text) ensures t in TagsIn(text) {
      assert t == Tag(t.name);
    }
  }

  /** Tags that are words read back as they were written, in whatever order. */
  lemma WordsReadBack(tags: set<Tag>, text: string)
    requires TextOf(tags, text) && AllWords(tags)
    ensures TagsIn(text) == tags
  {
    hide Text.Words, Text.IsWord;
    var order :| Elements(order) == tags && Distinct(order) && text == Text.Join(Names(order), ' ');
    var names := Names(order);
    forall k | 0 <= k < |names| ensures Text.IsWord(names[k]) {
      assert order[k] in Elements(order);
    }
    Text.WordsJoin(names);
    forall t ensures t in TagsIn(text) <==> t in tags {
      if t in tags {
        var k :| 0 <= k < |order| && order[k] == t;
        assert names[k] == t.name && t == Tag(t.name);
      }
      if t in TagsIn(text) {
        var k :| 0 <= k < |names| && Tag(names[k]) == t;
        assert order[k] == t;
      }
    }
  }

  // ----- Processing a file

  /** The tags of a linear version number, versions 2 up to `ver`. */
  ghost function LegacyTags(legacy: map<int, Tag>, ver: int): set<Tag>
  {
    set i | 2 <= i <= ver && i in legacy :: legacy[i]
  }

  ghost predicate LegacyKnown(legacy: map<int, Tag>, ver: int) {
    forall i :: 2 <= i <= ver ==> i in legacy
  }

  /** What processing a file does, as a function of the registry and the file's version. */
  ghost function Process(r: Registry, legacy: map<int, Tag>, v: Version): FileResult
    requires r.WellFormed()
  {
    match v
    case NoVersion => NoVersionInfo
    case CptVer(ver) =>
      if !LegacyKnown(legacy, ver) then UnknownLegacy
      else Migrate(r, LegacyTags(legacy, ver), true)
    case VersionTags(text) => Migrate(r, TagsIn(text), false)
  }

  /** The tags a file starts from. */
  ghost function StartTags(legacy: map<int, Tag>, v: Version): set<Tag> {
    match v
    case NoVersion => {}
    case CptVer(ver) => LegacyTags(legacy, ver)
    case VersionTags(text) => TagsIn(text)
  }

  ghost function Migrate(r: Registry, tags: set<Tag>, converted: bool): FileResult
    requires r.WellFormed()
  {
    match Run(r, tags)
    case Stuck(end) => Aborted(end)
    case Done(end) => if converted || Todo(r, tags) != {} then Written(end) else NothingToDo
  }

  ghost predicate LegacyWithin(r: Registry, legacy: map<int, Tag>) {
    forall v :: v in legacy ==> legacy[v] in r.ups + r.downs
  }

  /** What is written has all upgraded tags, no downgraded one, and of others only words. */
  lemma WrittenTags(r: Registry, legacy: map<int, Tag>, v: Version)
    requires r.WellFormed() && LegacyWithin(r, legacy) && Process(r, legacy, v).Written?
    ensures var tags := Process(r, legacy, v).tags;
            && Todo(r, tags) == {} && r.ups <= tags && r.downs !! tags
            && AllWords(tags - r.ups)
  {
    hide Text.Words, Text.IsWord, Run;
    var start := StartTags(legacy, v);
    FinalTags(r, start);
    if v.VersionTags? {
      TagsAreWords(v.text);
    }
  }

  /** Processing a file that was written, in either format and whatever the order of the tags in
      it, finds nothing to do a second time if and only if every upgraded tag is one word. */
  lemma SecondRunNothingToDoIff(r: Registry, legacy: map<int, Tag>, v: Version, text: string)
    requires r.WellFormed() && LegacyWithin(r, legacy)
    requires Process(r, legacy, v).Written? && TextOf(Process(r, legacy, v).tags, text)
    ensures Process(r, legacy, VersionTags(text)) == NothingToDo <==> AllWords(r.ups)
  {
    hide Text.IsWord, TagsIn, TextOf;
    var tags := Process(r, legacy, v).tags;
    WrittenTags(r, legacy, v);
    if AllWords(r.ups) {
      WordsReadBack(tags, text);
    } else {
      var t :| t in r.ups && !Text.IsWord(t.name);
      TagsAreWords(text);
      assert t in Todo(r, TagsIn(text));
    }
  }

  /** A tag of two words is applied again: it is written as one tag and read as two. */
  lemma TwoWordsAppliedAgain()
    ensures var t := Tag("a b");
            var r := Registry({t}, {}, map[t := {}]);
            && r.WellFormed() && r.Audited()
            && Process(r, map[], VersionTags("")) == Written({t})
            && TextOf({t}, "a b")
            && Process(r, map[], VersionTags("a b")).Written?
  {
    hide Run, Todo, Text.Words;
    var t := Tag("a b");
    var r := Registry({t}, {}, map[t := {}]);
    assert TextOf({t}, "a b") by {
      assert Elements([t]) == {t} && Distinct([t]) && Names([t]) == ["a b"];
    }
    assert TagsIn("") == {} by { Text.WordsOf([]); }
    OneTag(t, TagsIn(""));
    TagsAreWords("a b");
    assert !Text.IsWord("a b") by { assert Text.IsSpace("a b"[1]); }
    OneTag(t, TagsIn("a b"));
  }

  /** With one upgrader and no dependencies, a checkpoint without its tag gets it. */
  lemma OneTag(t: Tag, tags: set<Tag>)
    requires t !in tags
    ensures var r := Registry({t}, {}, map[t := {}]);
            r.WellFormed() && Todo(r, tags) == {t} && Run(r, tags) == Done(tags + {t})
  {
    var r := Registry({t}, {}, map[t := {}]);
    assert Todo(r, tags) == {t} && ReadySet(r, tags) == {t};
    assert Step(r, tags) == tags + {t};
    assert Todo(r, tags + {t}) == {};
  }

  class Upgraders {
    var tagSet: set<Tag>
    var untagSet: set<Tag>
    var byTag: map<Tag, Upgrader>
    var legacy: map<int, Tag>      // the tag of the Upgrader object of each legacy version

    ghost predicate Valid()
      reads this
    {
      && byTag.Keys == tagSet + untagSet && tagSet !! untagSet
      && (forall t :: t in byTag ==>
            byTag[t].script.tag == t && (byTag[t].script.kind.Upgrade? <==> t in tagSet))
      && LegacyOk(byTag, legacy)
    }

    ghost function View(): (r: Registry)
      reads this
      requires Valid()
      ensures r.WellFormed()
    {
      Registry(tagSet, untagSet, map t | t in byTag :: Elements(byTag[t].depends))
    }

    /** So the theorem on second runs is about every registry that was loaded. */
    lemma LegacyIsWithin()
      requires Valid()
      ensures LegacyWithin(View(), legacy)
    {
    }

    constructor ()
      ensures Valid() && byTag == map[] && legacy == map[]
    {
      tagSet, untagSet, byTag, legacy := {}, {}, map[], map[];
    }

    /** The end of the constructor of one script: file the object under its kind, its legacy
        version and its tag. A tag can only be used once. */
    method Register(u: Upgrader)
      requires Valid() && u.script.tag !in byTag
      modifies this
      ensures Valid()
      ensures byTag == old(byTag)[u.script.tag := u]
      ensures tagSet == old(tagSet) + if u.script.kind.Upgrade? then {u.script.tag} else {}
      ensures untagSet == old(untagSet) + if u.script.kind.Downgrade? then {u.script.tag} else {}
      ensures legacy == if u.script.legacy.LegacyVersion?
                        then old(legacy)[u.script.legacy.version := u.script.tag] else old(legacy)
    {
      if u.script.kind.Upgrade? {
        tagSet := tagSet + {u.script.tag};
      } else {
        untagSet := untagSet + {u.script.tag};
      }
      if u.script.legacy.LegacyVersion? {
        legacy := legacy[u.script.legacy.version := u.script.tag];
      }
      byTag := byTag[u.script.tag := u];
    }

    method SetDepends(t: Tag, depends: seq<Tag>)
      requires Valid() && t in byTag
      modifies this`byTag
      ensures Valid() && SameBut(old(byTag), byTag)
      ensures byTag == old(byTag)[t := old(byTag)[t].(depends := depends)]
    {
      byTag := byTag[t := byTag[t].(depends := depends)];
    }

    method AppendDepends(to: Tag, tag: Tag)
      requires Valid() && to in byTag
      modifies this`byTag
      ensures Valid() && SameBut(old(byTag), byTag)
      ensures forall t, d :: DependsOn(byTag, t, d) <==>
                             DependsOn(old(byTag), t, d) || (t == to && d == tag)
    {
      SetDepends(to, byTag[to].depends + [tag]);
    }

    /** Legacy versions 3, 4, ... as far as they go without a gap each come to depend on exactly
        the version before; without a version 2 the first of them is a KeyError. */
    method LinkLegacy() returns (ok: bool, ghost n: int)
      requires Valid()
      modifies this`byTag
      ensures ok <==> (3 in legacy ==> 2 in legacy)
      ensures ok ==> Valid() && SameBut(old(byTag), byTag)
      ensures ok ==> n !in legacy && Chained(legacy, n) && byTag == Linked(old(byTag), legacy, n)
    {
      hide Linked, SameBut;
      var versions := legacy;
      ghost var was, left := byTag, versions.Keys;
      LinkedFrom(was, versions, 3);
      var i := 3;
      while i in versions
        invariant Valid() && legacy == versions && LegacyOk(was, versions)
        invariant Chained(versions, i) && byTag == Linked(was, versions, i)
        invariant i > 3 ==> 2 in versions
        invariant forall v :: v in versions && v >= i ==> v in left
        decreases left
      {
        if i - 1 !in versions {
          return false, i;
        }
        LinkNext(was, versions, i);
        SetDepends(versions[i], [versions[i - 1]]);
        left := left - {i};
        i := i + 1;
      }
      LinkedFrom(was, versions, i);
      ok, n := true, i;
    }

    /** Forward dependencies are turned round and every dependency is audited, tag by tag in any
        order. It succeeds exactly when all tags named in `depends` and `fwd_depends` exist, and
        then each tag depends on what it names and on everything that names it forward. */
    method Resolve() returns (ok: bool)
      requires Valid()
      modifies this`byTag
      ensures ok <==> forall t :: t in old(byTag) ==> RefersToKnown(old(byTag), t)
      ensures ok ==> Valid() && View().Audited()
      ensures ok ==> SameBut(old(byTag), byTag) && Turned(old(byTag), byTag, byTag.Keys)
    {
      ghost var was, seen := byTag, {};
      var rest := byTag.Keys;
      while rest != {}
        invariant Valid() && SameBut(was, byTag)
        invariant rest + seen == was.Keys
        invariant forall t :: t in seen ==> RefersToKnown(was, t)
        invariant Turned(was, byTag, seen)
        decreases rest
      {
        var tag :| tag in rest;
        var known := ResolveOne(tag, was, seen);
        if !known {
          return false;
        }
        rest, seen := rest - {tag}, seen + {tag};
      }
      assert seen == was.Keys;
      ok := true;
    }

    /** The body of the resolution loop for one tag. */
    method ResolveOne(tag: Tag, ghost was: map<Tag, Upgrader>, ghost seen: set<Tag>)
      returns (ok: bool)
      requires Valid() && tag in byTag && seen <= byTag.Keys
      requires SameBut(was, byTag) && Turned(was, byTag, seen)
      modifies this`byTag
      ensures Valid() && SameBut(was, byTag)
      ensures ok <==> RefersToKnown(was, tag)
      ensures ok ==> Turned(was, byTag, seen + {tag})
    {
      ok := Forward(tag, was, seen);
      if ok {
        ok := Audit(tag);
      }
    }

    /** Append `tag` to the dependencies of every tag it forward-depends to. */
    method Forward(tag: Tag, ghost was: map<Tag, Upgrader>, ghost seen: set<Tag>)
      returns (ok: bool)
      requires Valid() && tag in byTag && seen <= byTag.Keys
      requires SameBut(was, byTag) && Turned(was, byTag, seen)
      modifies this`byTag
      ensures Valid() && SameBut(was, byTag)
      ensures ok <==> forall fd :: NamesForward(was, tag, fd) ==> fd in was
      ensures ok ==> Turned(was, byTag, seen + {tag})
    {
      var fwd := byTag[tag].script.fwdDepends;
      assert fwd == was[tag].script.fwdDepends;
      for j := 0 to |fwd|
        invariant Valid() && SameBut(was, byTag)
        invariant forall fd :: fd in fwd[..j] ==> fd in was
        invariant forall t, d :: t in was ==>
          (DependsOn(byTag, t, d) <==>
           || DependsOn(was, t, d)
           || (d in seen && NamesForward(was, d, t))
           || (d == tag && t in fwd[..j]))
      {
        if fwd[j] !in byTag {
          return false;
        }
        assert fwd[..j + 1] == fwd[..j] + [fwd[j]];
        AppendDepends(fwd[j], tag);
      }
      assert fwd[..|fwd|] == fwd;
      ok := true;
    }

    method Audit(tag: Tag) returns (ok: bool)
      requires tag in byTag
      ensures ok <==> forall d :: DependsOn(byTag, tag, d) ==> d in byTag
    {
      var depends := byTag[tag].depends;
      for j := 0 to |depends|
        invariant forall i :: 0 <= i < j ==> depends[i] in byTag
      {
        if depends[j] !in byTag {
          return false;
        }
      }
      ok := true;
    }

    method RegisterAll(scripts: seq<Upgrader>)
      requires Valid() && byTag == map[] && legacy == map[]
      requires TagsDiffer(scripts)
      modifies this
      ensures Valid()
      ensures byTag == Loaded(scripts, |scripts|) && legacy == Versions(scripts, |scripts|)
    {
      for j := 0 to |scripts|
        invariant Valid()
        invariant byTag == Loaded(scripts, j) && legacy == Versions(scripts, j)
      {
        NotYetLoaded(scripts, j, j);
        Register(scripts[j]);
      }
    }

    /** load_all: register every script, link the legacy versions, resolve and audit. It succeeds
        exactly when linking does and all tags named afterwards exist; n is the first legacy
        version, from 3 on, that is missing. */
    method LoadAll(scripts: seq<Upgrader>) returns (ok: bool, ghost n: int)
      requires Valid() && byTag == map[] && legacy == map[]
      requires TagsDiffer(scripts)
      modifies this
      ensures legacy == Versions(scripts, |scripts|)
      ensures (3 in legacy ==> 2 in legacy) ==> n !in legacy && Chained(legacy, n)
      ensures ok <==>
                && (3 in legacy ==> 2 in legacy)
                && forall t :: t in Loaded(scripts, |scripts|) ==>
                                 RefersToKnown(Linked(Loaded(scripts, |scripts|), legacy, n), t)
      ensures ok ==>
                && Valid() && View().Audited()
                && SameBut(Loaded(scripts, |scripts|), byTag)
                && Turned(Linked(Loaded(scripts, |scripts|), legacy, n), byTag, byTag.Keys)
    {
      hide Loaded, Versions, TagsDiffer, Turned, RefersToKnown, Chained;
      RegisterAll(scripts);
      ok, n := LinkLegacy();
      if ok {
        ok := Resolve();
      }
    }

    // ----- Processing one file

    method IsReady(t: Tag, tags: set<Tag>) returns (ready: bool)
      requires Valid() && t in byTag
      ensures ready <==> Ready(View(), t, tags)
    {
      var depends := byTag[t].depends;
      for j := 0 to |depends|
        invariant forall i :: 0 <= i < j ==> depends[i] in tags
      {
        if depends[j] !in tags {
          assert depends[j] in View().deps[t];
          return false;
        }
      }
      ready := true;
    }

    /** Run one upgrader or downgrader; removing a tag that is not there would be a KeyError. */
    method Update(t: Tag, tags: set<Tag>) returns (now: set<Tag>)
      requires Valid() && t in byTag
      requires byTag[t].script.kind.Downgrade? ==> t in tags
      ensures now == Apply(View(), {t}, tags)
    {
      if byTag[t].script.kind.Upgrade? {
        now := tags + {t};
      } else {
        now := tags - {t};
      }
    }

    method ReadyTags(todo: set<Tag>, tags: set<Tag>) returns (ready: set<Tag>)
      requires Valid() && todo == Todo(View(), tags)
      ensures ready == ReadySet(View(), tags)
    {
      ready := {};
      var rest := todo;
      while rest != {}
        invariant rest <= todo
        invariant ready == set t | t in todo - rest && Ready(View(), t, tags)
        decreases rest
      {
        var t :| t in rest;
        var now := IsReady(t, tags);
        if now {
          ready := ready + {t};
        }
        rest := rest - {t};
      }
    }

    /** One round: update every tag of the batch, in whatever order the set yields them. */
    method ApplyBatch(batch: set<Tag>, tags: set<Tag>) returns (now: set<Tag>, order: seq<Tag>)
      requires Valid() && batch <= Todo(View(), tags)
      ensures now == Apply(View(), batch, tags)
      ensures Elements(order) == batch && Distinct(order)
    {
      now, order := tags, [];
      var rest := batch;
      while rest != {}
        invariant rest <= batch && Distinct(order)
        invariant Elements(order) == batch - rest
        invariant now == Apply(View(), batch - rest, tags)
        decreases rest
      {
        var t :| t in rest;
        assert t !in Elements(order);
        now := Update(t, now);
        assert Elements(order + [t]) == Elements(order) + {t};
        order := order + [t];
        rest := rest - {t};
      }
    }

    /** Migrate one checkpoint. The result is the specified one whatever order sets are iterated
        in; the log names each tag that was applied exactly once; and without downgraders the log
        applies every tag after its dependencies and stops only where nothing more is ready. */
    method ProcessFile(v: Version) returns (res: FileResult, applied: seq<Tag>, text: string)
      requires Valid()
      ensures res == Process(View(), legacy, v)
      ensures res.Written? ==> TextOf(res.tags, text)
      ensures Distinct(applied)
      ensures res.Written? || res.Aborted? ==>
                Elements(applied) == Todo(View(), StartTags(legacy, v)) - Todo(View(), res.tags)
      ensures (res.Written? || res.Aborted?) && untagSet == {} ==>
                && Schedule(View(), StartTags(legacy, v), applied)
                && Maximal(View(), StartTags(legacy, v), applied)
      ensures res.UnknownLegacy? <==> v.CptVer? && exists i :: 2 <= i <= v.ver && i !in legacy
      ensures res.NothingToDo? <==>
                && v.VersionTags?
                && (forall t :: t in tagSet ==> t.name in Text.Words(v.text))
                && (forall t :: t in untagSet ==> t.name !in Text.Words(v.text))
      ensures res.Written? || res.Aborted? ==>
                forall t: Tag ::
                  var first := if v.VersionTags? then t.name in Text.Words(v.text)
                               else v.CptVer? && exists i :: 2 <= i <= v.ver && i in legacy && legacy[i] == t;
                  && (t in applied <==> first != (t in res.tags))
                  && (t in tagSet && first ==> t in res.tags)
                  && (t in untagSet && t in res.tags ==> first)
                  && (t !in tagSet + untagSet ==> (t in res.tags <==> first))
    {
      hide Run, LegacyTags, LegacyKnown, TagsIn, Schedule, Maximal, TextOf, Text.Words;
      applied, text := [], "";
      if v.NoVersion? {
        return NoVersionInfo, applied, text;
      }
      var tags: set<Tag>, change := {}, false;
      if v.CptVer? {
        var known;
        known, tags := ConvertVersion(v.ver);
        if !known {
          return UnknownLegacy, applied, text;
        }
        change := true;
      } else {
        tags := TagsIn(v.text);
      }
      var end, stuck;
      end, stuck, applied := MigrateTags(tags);
      AppliedIsChanged(View(), tags, applied);
      TodoIs(View(), tags);
      if v.VersionTags? {
        TagsWithin(v.text);
      }
      if stuck {
        return Aborted(end), applied, text;
      }
      change := change || applied != [];
      assert applied == [] <==> Elements(applied) == {} by {
        assert applied != [] ==> applied[0] in Elements(applied);
      }
      if !change {
        return NothingToDo, applied, text;
      }
      res := Written(end);
      text := JoinTags(end);
    }

    /** A linear version number stands for the tags of versions 2 up to it. */
    method ConvertVersion(ver: int) returns (known: bool, tags: set<Tag>)
      ensures known <==> LegacyKnown(legacy, ver)
      ensures known <==> forall i :: 2 <= i <= ver ==> i in legacy
      ensures known ==> tags == LegacyTags(legacy, ver)
      ensures known ==> forall t :: t in tags <==> exists i :: 2 <= i <= ver && i in legacy && legacy[i] == t
    {
      tags := {};
      var i := 2;
      while i < ver + 1
        invariant 2 <= i <= ver + 1 || (i == 2 && tags == {})
        invariant LegacyKnown(legacy, i - 1) && tags == LegacyTags(legacy, i - 1)
      {
        if i !in legacy {
          return false, tags;
        }
        tags := tags + {legacy[i]};
        i := i + 1;
      }
      assert tags == LegacyTags(legacy, ver);
      known := true;
    }

    /** The names with spaces between them, in whatever order the set yields them. */
    static method JoinTags(tags: set<Tag>) returns (text: string)
      ensures TextOf(tags, text)
    {
      var order: seq<Tag>, rest := [], tags;
      while rest != {}
        invariant rest <= tags && Distinct(order)
        invariant Elements(order) == tags - rest
        decreases rest
      {
        var t :| t in rest;
        assert t !in Elements(order);
        assert Elements(order + [t]) == Elements(order) + {t};
        order := order + [t];
        rest := rest - {t};
      }
      text := Text.Join(Names(order), ' ');
    }

    /** The tag loop. */
    method MigrateTags(start: set<Tag>) returns (tags: set<Tag>, stuck: bool, applied: seq<Tag>)
      requires Valid()
      ensures Run(View(), start) == if stuck then Stuck(tags) else Done(tags)
      ensures Distinct(applied) && Elements(applied) == Todo(View(), start) - Todo(View(), tags)
      ensures untagSet == {} ==>
                Schedule(View(), start, applied) && Maximal(View(), start, applied)
    {
      hide Todo, Run, Schedule, Maximal, Apply, ReadySet, Log;
      tags, stuck, applied := start, false, [];
      LogNone(View(), start);
      var toApply := (tagSet - tags) + (untagSet * tags);
      assert toApply == Todo(View(), tags) by { TodoIs(View(), tags); }
      while toApply != {}
        invariant toApply == Todo(View(), tags) && Log(View(), start, tags, applied)
        decreases toApply
      {
        var ready := ReadyTags(toApply, tags);
        if ready == {} {
          LogEnd(View(), start, tags, applied);
          stuck := true;
          return;
        }
        StepShrinksTodo(View(), tags);
        assert ready <= toApply by { TodoIs(View(), tags); }
        ghost var before := tags;
        var order;
        tags, order := ApplyBatch(ready, tags);
        LogNext(View(), start, before, applied, order);
        applied := applied + order;
        toApply := toApply - ready;
      }
      LogEnd(View(), start, tags, applied);
    }
  }

  // ----- Specification of loading

  /** "A tag can only be used once." */
  ghost predicate TagsDiffer(scripts: seq<Upgrader>) {
    forall i, j :: 0 <= i < j < |scripts| ==> scripts[i].script.tag != scripts[j].script.tag
  }

  ghost function Loaded(scripts: seq<Upgrader>, k: nat): map<Tag, Upgrader>
    requires k <= |scripts|
  {
    if k == 0 then map[] else Loaded(scripts, k - 1)[scripts[k - 1].script.tag := scripts[k - 1]]
  }

  /** Of several scripts with the same legacy version, the last one counts. */
  ghost function Versions(scripts: seq<Upgrader>, k: nat): map<int, Tag>
    requires k <= |scripts|
  {
    if k == 0 then map[]
    else
      var script := scripts[k - 1].script;
      if script.legacy.NoLegacy? then Versions(scripts, k - 1)
      else Versions(scripts, k - 1)[script.legacy.version := script.tag]
  }

  lemma {:induction false} NotYetLoaded(scripts: seq<Upgrader>, k: nat, j: nat)
    requires TagsDiffer(scripts) && k <= j < |scripts|
    ensures scripts[j].script.tag !in Loaded(scripts, k)
  {
    if k > 0 {
      NotYetLoaded(scripts, k - 1, j);
    }
  }

  /** Every script is filed under its tag, and no tag is there without a script. */
  lemma {:induction false} LoadedMeans(scripts: seq<Upgrader>, k: nat)
    requires TagsDiffer(scripts) && k <= |scripts|
    ensures forall j :: 0 <= j < k ==>
              scripts[j].script.tag in Loaded(scripts, k) && Loaded(scripts, k)[scripts[j].script.tag] == scripts[j]
    ensures forall t :: t in Loaded(scripts, k) ==> exists j :: 0 <= j < k && scripts[j].script.tag == t
  {
    if k > 0 {
      LoadedMeans(scripts, k - 1);
    }
  }

  /** A legacy version stands for the last script that claims it. */
  lemma {:induction false} VersionsMeans(scripts: seq<Upgrader>, k: nat, v: int)
    requires k <= |scripts|
    ensures v in Versions(scripts, k) <==>
            exists j :: 0 <= j < k && scripts[j].script.legacy == LegacyVersion(v)
    ensures v in Versions(scripts, k) ==>
              exists j :: && 0 <= j < k && scripts[j].script.legacy == LegacyVersion(v)
                          && scripts[j].script.tag == Versions(scripts, k)[v]
                          && forall i :: j < i < k ==> scripts[i].script.legacy != LegacyVersion(v)
  {
    if k > 0 {
      VersionsMeans(scripts, k - 1, v);
    }
  }

  ghost predicate LegacyOk(byTag: map<Tag, Upgrader>, legacy: map<int, Tag>) {
    forall v :: v in legacy ==>
                  legacy[v] in byTag && byTag[legacy[v]].script.legacy == LegacyVersion(v)
  }

  /** The versions below n are there, from 2 on if there is any to be linked. */
  ghost predicate Chained(legacy: map<int, Tag>, n: int) {
    n >= 3 && (n > 3 ==> forall v :: 2 <= v < n ==> v in legacy)
  }

  ghost predicate SameBut(a: map<Tag, Upgrader>, b: map<Tag, Upgrader>) {
    a.Keys == b.Keys && forall t :: t in a ==> a[t].script == b[t].script
  }

  /** With the versions from 3 below n linked, an object that is one of them depends on exactly
      the version before, and any other on what it did. */
  ghost function LinkedDepends(u: Upgrader, legacy: map<int, Tag>, n: int): seq<Tag>
    requires Chained(legacy, n)
  {
    var l := u.script.legacy;
    if l.LegacyVersion? && 3 <= l.version < n && legacy[l.version] == u.script.tag
    then [legacy[l.version - 1]]
    else u.depends
  }

  ghost function Linked(was: map<Tag, Upgrader>, legacy: map<int, Tag>, n: int)
    : map<Tag, Upgrader>
    requires Chained(legacy, n)
  {
    map t | t in was :: was[t].(depends := LinkedDepends(was[t], legacy, n))
  }

  lemma LinkedFrom(was: map<Tag, Upgrader>, legacy: map<int, Tag>, n: int)
    requires Chained(legacy, n)
    ensures SameBut(was, Linked(was, legacy, n))
    ensures n == 3 ==> Linked(was, legacy, n) == was
  {
  }

  /** Each version from 3 on depends on the one before it, and all other tags on what they did. */
  lemma LinkedMeans(was: map<Tag, Upgrader>, legacy: map<int, Tag>, n: int)
    requires Chained(legacy, n) && LegacyOk(was, legacy)
    requires forall t :: t in was ==> was[t].script.tag == t
    ensures var now := Linked(was, legacy, n);
            && 3 <= n && (n > 3 ==> forall v :: 2 <= v < n ==> v in legacy)
            && (forall v :: 3 <= v < n ==> legacy[v] in now && now[legacy[v]].depends == [legacy[v - 1]])
            && (forall t :: t in was && (forall v :: 3 <= v < n ==> legacy[v] != t) ==> now[t] == was[t])
  {
  }

  lemma LinkNext(was: map<Tag, Upgrader>, legacy: map<int, Tag>, n: int)
    requires Chained(legacy, n) && n in legacy && n - 1 in legacy && legacy[n] in was
    requires was[legacy[n]].script.legacy == LegacyVersion(n)
    requires forall t :: t in was ==> was[t].script.tag == t
    ensures Chained(legacy, n + 1)
    ensures var now := Linked(was, legacy, n);
            Linked(was, legacy, n + 1) ==
            now[legacy[n] := now[legacy[n]].(depends := [legacy[n - 1]])]
  {
  }

  ghost predicate DependsOn(m: map<Tag, Upgrader>, t: Tag, d: Tag) {
    t in m && d in m[t].depends
  }

  ghost predicate NamesForward(m: map<Tag, Upgrader>, d: Tag, t: Tag) {
    d in m && t in m[d].script.fwdDepends
  }

  ghost predicate RefersToKnown(m: map<Tag, Upgrader>, t: Tag) {
    && (forall d :: DependsOn(m, t, d) ==> d in m)
    && (forall d :: NamesForward(m, t, d) ==> d in m)
  }

  /** The dependencies once the tags in `seen` have had their forward dependencies turned. */
  ghost predicate Turned(was: map<Tag, Upgrader>, now: map<Tag, Upgrader>, seen: set<Tag>) {
    forall t, d :: t in was ==>
                     (DependsOn(now, t, d) <==>
                      DependsOn(was, t, d) || (d in seen && NamesForward(was, d, t)))
  }

  /** All dependencies are known when every tag that is named in either list has a script. */
  lemma KnownMeans(m: map<Tag, Upgrader>)
    ensures (forall t :: t in m ==> RefersToKnown(m, t)) <==>
            forall t, d :: t in m ==>
              (d in m[t].depends ==> d in m) && (d in m[t].script.fwdDepends ==> d in m)
  {
    if forall t :: t in m ==> RefersToKnown(m, t) {
      forall t, d | t in m
        ensures (d in m[t].depends ==> d in m) && (d in m[t].script.fwdDepends ==> d in m)
      {
        assert RefersToKnown(m, t);
        assert DependsOn(m, t, d) <==> d in m[t].depends;
        assert NamesForward(m, t, d) <==> d in m[t].script.fwdDepends;
      }
    }
  }

  /** In the end a tag depends on what it did and on everything that names it forward. */
  lemma TurnedMeans(was: map<Tag, Upgrader>, now: map<Tag, Upgrader>, t: Tag, d: Tag)
    requires Turned(was, now, was.Keys) && was.Keys == now.Keys && t in now
    ensures d in now[t].depends <==>
            d in was[t].depends || (d in was && t in was[d].script.fwdDepends)
  {
    assert DependsOn(now, t, d) <==> DependsOn(was, t, d) || (d in was && NamesForward(was, d, t));
  }

  // ----- Logs

  lemma DistinctConcat(a: seq<Tag>, b: seq<Tag>)
    requires Distinct(a) && Distinct(b) && Elements(a) !! Elements(b)
    ensures Distinct(a + b) && Elements(a + b) == Elements(a) + Elements(b)
  {
    forall i, j | 0 <= i < j < |a + b|
      ensures (a + b)[i] != (a + b)[j]
    {
      if i < |a| <= j {
        assert a[i] in Elements(a) && b[j - |a|] in Elements(b);
      }
    }
  }

  /** The log of a migration that has come from the tags at the start to these. */
  ghost predicate Log(r: Registry, start: set<Tag>, tags: set<Tag>, applied: seq<Tag>)
    requires r.WellFormed()
  {
    && Run(r, tags) == Run(r, start) && Todo(r, tags) <= Todo(r, start)
    && Distinct(applied) && Elements(applied) == Todo(r, start) - Todo(r, tags)
    && (r.downs == {} ==> Schedule(r, start, applied) && tags == start + Elements(applied))
  }

  lemma TodoIs(r: Registry, tags: set<Tag>)
    requires r.WellFormed()
    ensures Todo(r, tags) == (r.ups - tags) + (r.downs * tags)
    ensures ReadySet(r, tags) <= Todo(r, tags)
    ensures Todo(r, tags) == {} <==>
            (forall t :: t in r.ups ==> t in tags) && (forall t :: t in r.downs ==> t !in tags)
  {
    forall t ensures t in Todo(r, tags) <==> (t in r.ups && t !in tags) || (t in r.downs && t in tags) {
    }
    assert (exists t :: t in Todo(r, tags)) || Todo(r, tags) == {};
  }

  lemma LogNone(r: Registry, start: set<Tag>)
    requires r.WellFormed()
    ensures Log(r, start, start, [])
  {
    hide Run;
  }

  /** A round in whatever order. */
  lemma LogNext(r: Registry, start: set<Tag>, tags: set<Tag>, applied: seq<Tag>, order: seq<Tag>)
    requires r.WellFormed() && Log(r, start, tags, applied)
    requires ReadySet(r, tags) != {} && Elements(order) == ReadySet(r, tags) && Distinct(order)
    ensures Log(r, start, Step(r, tags), applied + order)
  {
    hide Run, Schedule, Distinct;
    StepShrinksTodo(r, tags);
    assert Run(r, tags) == Run(r, Step(r, tags)) by { RunStep(r, tags); }
    assert Elements(applied) !! Elements(order);
    DistinctConcat(applied, order);
    if r.downs == {} {
      forall t | t in order ensures t in Missing(r, start) && Ready(r, t, start + Elements(applied)) {
        assert t in Elements(order);
      }
      ScheduleExtends(r, start, applied, order);
    }
  }

  lemma RunStep(r: Registry, tags: set<Tag>)
    requires r.WellFormed() && ReadySet(r, tags) != {}
    ensures Run(r, tags) == Run(r, Step(r, tags))
  {
    hide Step;
    assert Todo(r, tags) != {};
  }

  lemma LogEnd(r: Registry, start: set<Tag>, tags: set<Tag>, applied: seq<Tag>)
    requires r.WellFormed() && Log(r, start, tags, applied)
    requires Todo(r, tags) == {} || ReadySet(r, tags) == {}
    ensures Run(r, start) == if Todo(r, tags) == {} then Done(tags) else Stuck(tags)
    ensures Distinct(applied) && Elements(applied) == Todo(r, start) - Todo(r, tags)
    ensures r.downs == {} ==> Schedule(r, start, applied) && Maximal(r, start, applied)
  {
    hide Schedule, Distinct;
    if r.downs == {} {
      forall t | t in Missing(r, start) && t !in applied
        ensures !Ready(r, t, start + Elements(applied))
      {
        assert t !in Elements(applied);
        assert t in Todo(r, tags) && t !in ReadySet(r, tags);
      }
    }
  }

  /** A tag is applied exactly when it is there first or at last but not both; an upgraded tag is
      not lost, a downgraded one not gained, and no other tag changes. */
  lemma AppliedIsChanged(r: Registry, start: set<Tag>, applied: seq<Tag>)
    requires r.WellFormed()
    requires Elements(applied) == Todo(r, start) - Todo(r, Run(r, start).tags)
    ensures var end := Run(r, start).tags;
            forall t ::
              && (t in applied <==> (t in start) != (t in end))
              && (t in r.ups && t in start ==> t in end)
              && (t in r.downs && t in end ==> t in start)
              && (t !in r.ups + r.downs ==> (t in end <==> t in start))
    ensures Todo(r, start) == {} ==> Run(r, start).Done?
  {
    var k := RunIsAfter(r, start);
    UnrelatedTagsKept(r, start, k);
    var end := Run(r, start).tags;
    forall t
      ensures t in applied <==> (t in start) != (t in end)
      ensures t in r.ups && t in start ==> t in end
      ensures t in r.downs && t in end ==> t in start
      ensures t !in r.ups + r.downs ==> (t in end <==> t in start)
    {
      assert t in applied <==> t in Elements(applied);
      assert t in end - r.ups - r.downs <==> t in start - r.ups - r.downs;
      assert t in start * r.ups ==> t in end;
      assert t in end * r.downs ==> t in start;
    }
  }

  /** Appending a batch that was ready before any of it ran keeps a schedule a schedule. */
  lemma ScheduleExtends(r: Registry, tags: set<Tag>, a: seq<Tag>, b: seq<Tag>)
    requires r.WellFormed() && Schedule(r, tags, a) && Distinct(a + b)
    requires forall t :: t in b ==> t in Missing(r, tags) && Ready(r, t, tags + Elements(a))
    ensures Schedule(r, tags, a + b)
  {
    forall i | 0 <= i < |a + b|
      ensures (a + b)[i] in Missing(r, tags)
    {
      assert i >= |a| ==> (a + b)[i] in b;
    }
    forall i | 0 <= i < |a + b|
      ensures Ready(r, (a + b)[i], tags + Elements((a + b)[..i]))
    {
      if i < |a| {
        assert (a + b)[..i] == a[..i];
      } else {
        assert (a + b)[..i] == a + b[..i - |a|];
        assert (a + b)[i] in b;
      }
    }
  }
}
