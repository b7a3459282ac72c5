/** The in-memory index: the tag files loaded so far, in load order. Files
    are only ever appended; every query walks all tags of the first file,
    then all tags of the second, and so on. */
module TagDatabases {
  import opened TagDefinitions
  import opened TagFiles

  /** The tags of the files, file after file, each file's tags in order. */
  function Flatten(files: seq<TagFile>): seq<TagDefinition> {
    if |files| == 0 then [] else Flatten(files[..|files| - 1]) + files[|files| - 1].tags
  }

  /** Flattening two runs of files concatenates their tags. */
  lemma {:induction false} FlattenAppend(a: seq<TagFile>, b: seq<TagFile>)
    ensures Flatten(a + b) == Flatten(a) + Flatten(b)
  {
    if |b| == 0 {
      assert a + b == a;
    } else {
      var front, last := b[..|b| - 1], b[|b| - 1];
      assert (a + b)[..|a + b| - 1] == a + front;
      assert (a + b)[|a + b| - 1] == last;
      FlattenAppend(a, front);
      assert Flatten(a + b) == Flatten(a + front) + last.tags;
      assert Flatten(b) == Flatten(front) + last.tags;
    }
  }

  /** The first file's tags come first, followed by the rest in order. */
  lemma FlattenFirst(files: seq<TagFile>)
    requires |files| > 0
    ensures Flatten(files) == files[0].tags + Flatten(files[1..])
  {
    var head := [files[0]];
    assert head[..0] == [];
    assert Flatten(head) == files[0].tags;
    assert files == head + files[1..];
    FlattenAppend(head, files[1..]);
  }

  /** A tag is in the flattening exactly when some file holds it. */
  lemma {:induction false} FlattenMember(files: seq<TagFile>, t: TagDefinition)
    ensures t in Flatten(files) <==> exists i :: 0 <= i < |files| && t in files[i].tags
  {
    if |files| > 0 {
      var last := |files| - 1;
      FlattenMember(files[..last], t);
      if t in Flatten(files[..last]) {
        var i :| 0 <= i < last && t in files[..last][i].tags;
        assert files[i] == files[..last][i];
      }
      if exists i :: 0 <= i < |files| && t in files[i].tags {
        var i :| 0 <= i < |files| && t in files[i].tags;
        if i < last {
          assert files[..last][i] == files[i];
        }
      }
    }
  }

  /** Membership in the flattening, for every tag at once. */
  lemma FlattenMembers(files: seq<TagFile>)
    ensures forall t :: t in Flatten(files) <==> exists i :: 0 <= i < |files| && t in files[i].tags
  {
    forall t {
      FlattenMember(files, t);
    }
  }

  /** `TagDatabase`: the list of loaded tag files, which the
      `load-tags-file` command appends to in place. */
  class TagDatabase {
    var tagFiles: seq<TagFile>

    /** `TagDatabase::new`: no files, hence no tags. */
    constructor ()
      ensures tagFiles == [] && AllTags() == []
    {
      tagFiles := [];
    }

    /** `all_tags`: only reads the database. */
    function AllTags(): (r: seq<TagDefinition>)
      reads this
      ensures forall t :: t in r <==> exists i :: 0 <= i < |tagFiles| && t in tagFiles[i].tags
    {
      FlattenMembers(tagFiles);
      Flatten(tagFiles)
    }
  }
}
