/**
 * The credentials file, seen through the section-update primitive that both commands use.
 * The file is an ordered list of sections, each an ordered list of key/value settings. The
 * text-level rewriting done by the config-file writer is abstracted to its effect on this
 * structure: the given keys are set in the named section, which is appended at the end
 * when it does not exist yet.
 */
module Store {
  import opened Wrappers
  import opened Profiles

  type Sections = Pairs<Settings>

  /** Sets every key of `values` in `settings`, in the order of `values`. */
  function Merge(settings: Settings, values: Settings): Settings
    decreases values
  {
    if values == [] then settings else Merge(Put(settings, values[0].0, values[0].1), values[1..])
  }

  /** After a merge, a written key reads as written and any other key reads as before. */
  lemma {:induction false} MergeGet(settings: Settings, values: Settings, k: string)
    requires Unique(values)
    ensures Get(Merge(settings, values), k) == if k in Keys(values) then Get(values, k) else Get(settings, k)
    decreases values
  {
    if values != [] {
      var (k0, v0) := values[0];
      var rest := values[1..];
      assert Unique(rest) by {
        forall i, j | 0 <= i < j < |rest| ensures rest[i].0 != rest[j].0 {
          assert rest[i] == values[i + 1] && rest[j] == values[j + 1];
        }
      }
      MergeGet(Put(settings, k0, v0), rest, k);
      PutGet(settings, k0, v0, k);
      assert Keys(values) == [k0] + Keys(rest);
      if k == k0 {
        assert k !in Keys(rest) by {
          forall i | 0 <= i < |rest| ensures Keys(rest)[i] != k0 {
            assert rest[i] == values[i + 1];
          }
        }
      }
    }
  }

  /** A merge never introduces a duplicate key. */
  lemma {:induction false} MergeUnique(settings: Settings, values: Settings)
    requires Unique(settings)
    ensures Unique(Merge(settings, values))
    decreases values
  {
    if values != [] {
      PutUnique(settings, values[0].0, values[0].1);
      MergeUnique(Put(settings, values[0].0, values[0].1), values[1..]);
    }
  }

  /** The settings of section `name`, empty when the section does not exist. */
  function SectionOf(sections: Sections, name: string): Settings
  {
    match Get(sections, name)
    case Some(s) => s
    case None => []
  }

  /** Merging into settings or merging some values never leaves the settings empty. */
  lemma {:induction false} MergeNonEmpty(settings: Settings, values: Settings)
    requires settings != [] || values != []
    ensures Merge(settings, values) != []
    decreases values
  {
    if values != [] {
      assert Put(settings, values[0].0, values[0].1) != [];
      MergeNonEmpty(Put(settings, values[0].0, values[0].1), values[1..]);
    }
  }

  /**
   * The abstract effect of the writer's `update_config` on the credentials file: afterwards
   * the section exists and holds the old settings merged with `values`, and no other section
   * has changed.
   */
  function UpdateSection(sections: Sections, name: string, values: Settings): (r: Sections)
    ensures Get(r, name) == Some(Merge(SectionOf(sections, name), values))
    ensures forall other :: other != name ==> Get(r, other) == Get(sections, other)
  {
    PutGetAll(sections, name, Merge(SectionOf(sections, name), values));
    Put(sections, name, Merge(SectionOf(sections, name), values))
  }

  /**
   * Reading the file back after an update: the section exists, every written key holds
   * its written value, the keys not written keep their old values, and every other
   * section is as before.
   */
  lemma WrittenSectionReadsBack(sections: Sections, name: string, values: Settings, other: string, k: string)
    requires Unique(values)
    ensures Get(UpdateSection(sections, name, values), name).Some?
    ensures Get(SectionOf(UpdateSection(sections, name, values), name), k)
         == if k in Keys(values) then Get(values, k) else Get(SectionOf(sections, name), k)
    ensures other != name ==> Get(UpdateSection(sections, name, values), other) == Get(sections, other)
  {
    PutGet(sections, name, Merge(SectionOf(sections, name), values), name);
    PutGet(sections, name, Merge(SectionOf(sections, name), values), other);
    MergeGet(SectionOf(sections, name), values, k);
  }

  /**
   * An update keeps the order of the sections: an existing section stays where it is and a
   * new one is appended at the end.
   */
  lemma UpdateSectionOrder(sections: Sections, name: string, values: Settings)
    ensures Keys(UpdateSection(sections, name, values))
         == if name in Keys(sections) then Keys(sections) else Keys(sections) + [name]
  {
    PutKeys(sections, name, Merge(SectionOf(sections, name), values));
  }

  /** Well-formed file contents: distinct section names and distinct keys in each section. */
  ghost predicate WellFormed(sections: Sections) {
    Unique(sections) && forall i :: 0 <= i < |sections| ==> Unique(sections[i].1)
  }

  /** Updating a section keeps the file well formed. */
  lemma UpdateSectionWellFormed(sections: Sections, name: string, values: Settings)
    requires WellFormed(sections)
    ensures WellFormed(UpdateSection(sections, name, values))
  {
    var current := SectionOf(sections, name);
    assert Unique(current) by {
      GetFound(sections, name);
      if Get(sections, name).Some? {
        var i :| 0 <= i < |sections| && sections[i] == (name, current);
      }
    }
    MergeUnique(current, values);
    var merged := Merge(current, values);
    var r := UpdateSection(sections, name, values);
    PutUnique(sections, name, merged);
    forall i | 0 <= i < |r| ensures Unique(r[i].1) {
      GetAt(r, i);
      PutGet(sections, name, merged, r[i].0);
      if r[i].0 != name {
        GetFound(sections, r[i].0);
        var j :| 0 <= j < |sections| && sections[j] == (r[i].0, r[i].1);
      }
    }
  }

  /** The credentials file, updated in place by the commands. */
  class CredentialsFile {
    /** The sections of the file, in file order. */
    var sections: Sections
    /** How many separating newlines have been appended to the text. */
    var separators: nat

    ghost predicate Valid()
      reads this
    {
      WellFormed(sections)
    }

    constructor (initial: Sections)
      requires WellFormed(initial)
      ensures Valid() && sections == initial && separators == 0
    {
      sections := initial;
      separators := 0;
    }

    /** The section names a config parser reads from the file (`ConfigParser.sections()`). */
    function SectionNames(): (names: seq<string>)
      reads this
      ensures |names| == |sections|
    {
      Keys(sections)
    }

    /** Appends a newline to the text; the section structure is unchanged. */
    method AppendNewline()
      modifies this
      ensures sections == old(sections) && separators == old(separators) + 1
    {
      separators := separators + 1;
    }

    /** `ConfigFileWriter().update_config({**values, "__section__": name}, path)`. */
    method UpdateConfig(name: string, values: Settings)
      requires Valid()
      modifies this
      ensures Valid()
      ensures sections == UpdateSection(old(sections), name, values)
      ensures separators == old(separators)
    {
      UpdateSectionWellFormed(sections, name, values);
      sections := UpdateSection(sections, name, values);
    }
  }
}
