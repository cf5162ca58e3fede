/** The archive handle: the decoded entries, in header order, and the two
    read-only queries the host can make of them. */
module Archive {
  import opened TarTypes

  /** Entry i is the first one called `name`. */
  predicate FirstMatch(entries: seq<Entry>, name: string, i: nat) {
    i < |entries| && entries[i].filename == name &&
    forall j | 0 <= j < i :: entries[j].filename != name
  }

  /** The iterator search `find(|entry| entry.filename == name)`, as an index. */
  function Find(entries: seq<Entry>, name: string): (found: Option<nat>)
    ensures found.Some? ==> FirstMatch(entries, name, found.value)
    ensures found.None? ==> forall j | 0 <= j < |entries| :: entries[j].filename != name
    decreases |entries|
  {
    if entries == [] then None
    else if entries[0].filename == name then Some(0)
    else match Find(entries[1..], name)
      case Some(i) => Some(i + 1)
      case None => None
  }

  /** An archive; nothing changes it once the scanner has built it. */
  datatype Tar = Tar(entries: seq<Entry>) {

    /** One name per entry, in entry order, duplicates kept. */
    function GetFilenames(): (names: seq<string>)
      ensures |names| == |entries|
      ensures forall i | 0 <= i < |entries| :: names[i] == entries[i].filename
    {
      seq(|entries|, i requires 0 <= i < |entries| => entries[i].filename)
    }

    /** The payload of the first entry called `name`, or FileNotFound. */
    function GetPayload(name: string): (r: Result<seq<byte>>)
      ensures r.Err? <==> forall j | 0 <= j < |entries| :: entries[j].filename != name
      ensures r.Err? ==> r.error == FileNotFound
      ensures r.Ok? ==> exists i: nat :: FirstMatch(entries, name, i) && r.value == entries[i].payload
    {
      match Find(entries, name)
      case Some(i) => Ok(entries[i].payload)
      case None => Err(FileNotFound)
    }
  }

  /** Lookup succeeds for exactly the names that the listing contains. */
  lemma ListedIffFound(t: Tar, name: string)
    ensures name in t.GetFilenames() <==> t.GetPayload(name).Ok?
  {
    var names := t.GetFilenames();
    if name in names {
      var i :| 0 <= i < |names| && names[i] == name;
      assert t.entries[i].filename == name;
    }
  }

  /** Two files, a.txt and b.txt: each name gives its own payload and any
      other name gives FileNotFound. */
  lemma LookupExample(a: seq<byte>, b: seq<byte>)
    ensures var t := Tar([Entry(NormalFile, "a.txt", |a|, a), Entry(NormalFile, "b.txt", |b|, b)]);
            t.GetFilenames() == ["a.txt", "b.txt"] &&
            t.GetPayload("b.txt") == Ok(b) &&
            t.GetPayload("a.txt") == Ok(a) &&
            t.GetPayload("c.txt") == Err(FileNotFound)
  {
    var t := Tar([Entry(NormalFile, "a.txt", |a|, a), Entry(NormalFile, "b.txt", |b|, b)]);
    assert "a.txt" != "b.txt" by { assert "a.txt"[0] != "b.txt"[0]; }
    assert "c.txt" != "a.txt" by { assert "c.txt"[0] != "a.txt"[0]; }
    assert "c.txt" != "b.txt" by { assert "c.txt"[0] != "b.txt"[0]; }
    assert t.entries[1].filename == "b.txt";
  }
}
