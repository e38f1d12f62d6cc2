/** Backup, restoration and transactional preparation in scripts/snarkypuss-migrate.py, with the
    file replacement of scripts/snarkypuss-configure.py. */
module Backup {
  import opened Prelude
  import Numerals

  type Path = string

  datatype Entry = Entry(path: Path, existed: bool, backup: Path, mode: nat, sha256: string)

  /** File contents: ordinary text, or the serialised manifest. */
  datatype Content = Plain(text: string) | Manifest(entries: seq<Entry>)

  datatype Node = File(content: Content, mode: nat) | Folder

  type Nodes = map<Path, Node>

  datatype Error = BackupExists | NotRegular | NoManifest | UnsafePath | ChecksumFailed | SystemError | GeneratorFailed

  const MANIFEST_NAME := "migration-manifest.json"

  // ---------------------------------------------------------------- Paths

  predicate Under(directory: Path, path: Path) { directory + "/" <= path }

  /** Where the copy of a managed path lives. */
  function CopyPath(backup: Path, absolute: Path): Path { backup + "/files" + absolute }

  function ManifestPath(backup: Path): Path { backup + "/" + MANIFEST_NAME }

  const ETC := "/etc/"
  const SYSTEMD := "systemd/system/"

  /** The managed paths below /etc. */
  function BelowEtc(interface: string): seq<Path> {
    ["wireguard/" + interface + ".conf",
     "wireguard/" + interface + ".private.key",
     "dnsmasq.conf",
     "dnsmasq.d/snarkypuss.conf",
     SYSTEMD + "dnsmasq.service.d/snarkypuss.conf",
     "snarkypuss/dnsmasq.conf",
     SYSTEMD + "snarkypuss-dns.service",
     "sysctl.conf",
     "sysctl.d/90-snarkypuss.conf",
     "iptables/rules.v4",
     "snarkypuss-setup.conf",
     "snarkypuss/client.pub"]
  }

  function InEtc(names: seq<Path>): seq<Path> {
    seq(|names|, i requires 0 <= i < |names| => ETC + names[i])
  }

  function ManagedPaths(interface: string): seq<Path> { InEtc(BelowEtc(interface)) }

  predicate Distinct(paths: seq<Path>) {
    forall i, j :: 0 <= i < j < |paths| ==> paths[i] != paths[j]
  }

  /** Managed paths are absolute and lie outside the backup directory. */
  predicate Separate(root: Path, backup: Path, managed: seq<Path>) {
    && Distinct(managed)
    && forall path :: path in managed ==> path != [] && path[0] == '/' && !Under(backup, root + path)
  }

  function Rooted(root: Path, managed: seq<Path>): set<Path> {
    set path | path in managed :: root + path
  }

  /** Copies sit inside the backup directory, apart from each other and from the manifest. */
  lemma CopyPlacement(backup: Path, path: Path, other: Path)
    requires path != [] && path[0] == '/'
    ensures Under(backup, CopyPath(backup, path)) && Under(backup, ManifestPath(backup))
    ensures CopyPath(backup, path) != ManifestPath(backup)
    ensures CopyPath(backup, path) == CopyPath(backup, other) ==> path == other
  {
    var copy, manifest := CopyPath(backup, path), ManifestPath(backup);
    assert copy[|backup|] == '/' && copy[|backup| + 1] == 'f';
    assert manifest[|backup| + 1] == 'm';
    assert copy[|backup| + 6..] == path;
    assert CopyPath(backup, other)[|backup| + 6..] == other;
    assert copy[..|backup| + 1] == backup + "/";
    assert manifest[..|backup| + 1] == backup + "/";
  }

  lemma RootedInjective(root: Path, path: Path, other: Path)
    requires root + path == root + other
    ensures path == other
  {
    assert (root + path)[|root|..] == path && (root + other)[|root|..] == other;
  }

  // ---------------------------------------------------------------- What a backup holds

  ghost predicate EntryHolds(before: Nodes, nodes: Nodes, root: Path, backup: Path, digest: Content -> string,
      path: Path, entry: Entry)
  {
    && entry.path == path
    && (root + path in before ==> before[root + path].File?)
    && entry.existed == (root + path in before)
    && (entry.existed ==>
      && entry.backup == "files" + path
      && entry.mode == before[root + path].mode
      && entry.sha256 == digest(before[root + path].content)
      && CopyPath(backup, path) in nodes
      && nodes[CopyPath(backup, path)] == File(before[root + path].content, 0x180))
  }

  /** The backup directory records the managed files as they were in `before`. */
  ghost predicate Holds(before: Nodes, nodes: Nodes, root: Path, backup: Path, digest: Content -> string,
      managed: seq<Path>)
  {
    && ManifestPath(backup) in nodes && nodes[ManifestPath(backup)].File?
    && nodes[ManifestPath(backup)].content.Manifest?
    && var entries := nodes[ManifestPath(backup)].content.entries;
    && |entries| == |managed|
    && forall i :: 0 <= i < |managed| ==> EntryHolds(before, nodes, root, backup, digest, managed[i], entries[i])
  }

  /** Two file systems agree inside (or outside) the backup directory. */
  ghost predicate SameInside(backup: Path, before: Nodes, after: Nodes) {
    forall path :: Under(backup, path) ==>
      (path in before <==> path in after) && (path in before ==> before[path] == after[path])
  }

  ghost predicate SameOutside(backup: Path, before: Nodes, after: Nodes) {
    forall path :: !Under(backup, path) ==>
      (path in before <==> path in after) && (path in before ==> before[path] == after[path])
  }

  /** A backup is worth nothing less after any change outside its directory. */
  lemma HoldsElsewhere(before: Nodes, nodes: Nodes, nodes': Nodes, root: Path, backup: Path,
      digest: Content -> string, managed: seq<Path>)
    requires Holds(before, nodes, root, backup, digest, managed) && SameInside(backup, nodes, nodes')
    requires Separate(root, backup, managed)
    ensures Holds(before, nodes', root, backup, digest, managed)
  {
    forall i | 0 <= i < |managed|
      ensures EntryHolds(before, nodes', root, backup, digest, managed[i],
        nodes[ManifestPath(backup)].content.entries[i])
    {
      CopyPlacement(backup, managed[i], managed[i]);
    }
    assert Under(backup, ManifestPath(backup)) by { assert ManifestPath(backup)[..|backup| + 1] == backup + "/"; }
  }

  /** The file system with the managed paths as in `before` and everything else as in `now`. */
  function Restored(before: Nodes, now: Nodes, paths: set<Path>): Nodes {
    (now - paths) + map path | path in paths && path in before :: before[path]
  }

  /** Something that stands in the way of restoration: a folder at a managed path. */
  predicate Obstructed(nodes: Nodes, root: Path, managed: seq<Path>) {
    exists path :: path in managed && FolderAt(nodes, root, path)
  }

  // ---------------------------------------------------------------- The file system

  class FileSystem {
    var nodes: Nodes
    const digest: Content -> string
    const reliable: bool         // no operation fails for outside reasons
    const generates: bool        // the generator is not stopped and refuses nothing

    constructor (nodes: Nodes, digest: Content -> string, reliable: bool, generates: bool)
      ensures this.nodes == nodes && this.digest == digest
      ensures this.reliable == reliable && this.generates == generates
    {
      this.nodes, this.digest, this.reliable, this.generates := nodes, digest, reliable, generates;
    }

    /** atomic_write of the migration script: the destination changes in one step, to the new
        content, or not at all. A folder cannot be replaced. */
    method AtomicWrite(path: Path, content: Content, mode: nat) returns (ok: bool)
      modifies this
      ensures ok ==>
        nodes == old(nodes)[path := File(content, mode)] && !(path in old(nodes) && old(nodes)[path].Folder?)
      ensures !ok ==> nodes == old(nodes)
      ensures reliable ==> (ok <==> !(path in old(nodes) && old(nodes)[path].Folder?))
    {
      var works: bool := *;
      if !(works || reliable) || (path in nodes && nodes[path].Folder?) { return false; }
      nodes := nodes[path := File(content, mode)];
      return true;
    }

    method Unlink(path: Path) returns (ok: bool)
      modifies this
      ensures ok ==> nodes == old(nodes) - {path}
      ensures !ok ==> nodes == old(nodes)
      ensures reliable ==> ok
    {
      var works: bool := *;
      if !(works || reliable) { return false; }
      nodes := nodes - {path};
      return true;
    }

    /** backup_files: copies every managed file and writes the manifest, touching nothing outside
        the new backup directory. */
    method BackupFiles(root: Path, backup: Path, managed: seq<Path>) returns (result: Result<(), Error>)
      requires Separate(root, backup, managed)
      modifies this
      ensures SameOutside(backup, old(nodes), nodes)
      ensures result.Ok? ==> Holds(old(nodes), nodes, root, backup, digest, managed)
      ensures result.Ok? ==> !Obstructed(old(nodes), root, managed)
      ensures NoNewFolders(old(nodes), nodes)
      ensures reliable ==> (result.Ok? <==> !Present(old(nodes), backup) && !Obstructed(old(nodes), root, managed))
    {
      if Present(nodes, backup) { return Err(BackupExists); }
      var entries: seq<Entry> := [];
      for i := 0 to |managed|
        invariant |entries| == i && SameOutside(backup, old(nodes), nodes) && NoNewFolders(old(nodes), nodes)
        invariant forall k :: 0 <= k < i ==> EntryHolds(old(nodes), nodes, root, backup, digest, managed[k], entries[k])
      {
        var path := managed[i];
        assert path in managed;
        CopyPlacement(backup, path, path);
        if root + path in nodes {
          var node := nodes[root + path];
          if node.Folder? { return Err(NotRegular); }
          var copied := AtomicWrite(CopyPath(backup, path), node.content, 0x180);
          if !copied { return Err(SystemError); }
          entries := entries + [Entry(path, true, "files" + path, node.mode, digest(node.content))];
          OthersKept(backup, managed, i);
        } else {
          entries := entries + [Entry(path, false, "", 0, "")];
        }
      }
      assert Under(backup, ManifestPath(backup)) by { assert ManifestPath(backup)[..|backup| + 1] == backup + "/"; }
      OthersKept(backup, managed, |managed|);
      var written := AtomicWrite(ManifestPath(backup), Manifest(entries), 0x180);
      if !written { return Err(SystemError); }
      return Ok(());
    }

    /** One manifest entry: nothing happens on failure. */
    method RestoreEntry(root: Path, backup: Path, entry: Entry) returns (result: Result<(), Error>)
      modifies this
      ensures result.Err? ==> nodes == old(nodes)
      ensures NoNewFolders(old(nodes), nodes)
      ensures result.Ok? ==> Usable(digest, backup, entry, old(nodes))
      ensures result.Ok? ==> Applied(root, backup, entry, old(nodes), nodes) && !FolderAt(old(nodes), root, entry.path)
      ensures reliable && Usable(digest, backup, entry, old(nodes)) ==>
        (result.Ok? <==> !FolderAt(old(nodes), root, entry.path))
    {
      if entry.path == [] || entry.path[0] != '/' { return Err(UnsafePath); }
      var destination := root + entry.path;
      if entry.existed {
        if entry.backup != [] && entry.backup[0] == '/' { return Err(UnsafePath); }
        var source := backup + "/" + entry.backup;
        if source !in nodes || nodes[source].Folder? { return Err(SystemError); }
        var data := nodes[source].content;
        if digest(data) != entry.sha256 { return Err(ChecksumFailed); }
        var written := AtomicWrite(destination, data, entry.mode);
        if !written { return Err(SystemError); }
      } else if destination in nodes {
        if nodes[destination].Folder? { return Err(NotRegular); }
        var removed := Unlink(destination);
        if !removed { return Err(SystemError); }
      }
      return Ok(());
    }

    /** restore_files. From a backup that holds `before`, a success returns every managed path to its
        earlier content and mode or absence and touches no other path; a failure leaves other paths
        alone too, and with reliable operations it happens exactly when a folder stands at a managed path. */
    method RestoreFiles(root: Path, backup: Path, ghost before: Nodes, ghost managed: seq<Path>)
        returns (result: Result<(), Error>)
      modifies this
      ensures NoNewFolders(old(nodes), nodes)
      ensures Holds(before, old(nodes), root, backup, digest, managed) && Separate(root, backup, managed) ==>
        nodes - Rooted(root, managed) == old(nodes) - Rooted(root, managed)
      ensures
        Holds(before, old(nodes), root, backup, digest, managed) && Separate(root, backup, managed) && result.Ok? ==>
        nodes == Restored(before, old(nodes), Rooted(root, managed))
      ensures
        Holds(before, old(nodes), root, backup, digest, managed) && Separate(root, backup, managed) && reliable ==>
        (result.Ok? <==> !Obstructed(old(nodes), root, managed))
    {
      ghost var start := nodes;
      ghost var sound := Holds(before, start, root, backup, digest, managed) && Separate(root, backup, managed);
      var place := ManifestPath(backup);
      if place !in nodes || nodes[place].Folder? || !nodes[place].content.Manifest? { return Err(NoManifest); }
      var entries := nodes[place].content.entries;
      for i := 0 to |entries|
        invariant NoNewFolders(start, nodes)
        invariant sound ==> nodes == Restored(before, start, Rooted(root, managed[..i]))
        invariant sound ==> forall k :: 0 <= k < i ==> !FolderAt(start, root, managed[k])
      {
        ghost var now := nodes;
        if sound { RestoreNext(before, start, now, root, backup, digest, managed, i); }
        result := RestoreEntry(root, backup, entries[i]);
        if result.Err? {
          if sound { RestoredElsewhere(before, start, root, managed, i); }
          return;
        }
        if sound { RestoreStep(before, start, now, nodes, root, backup, digest, managed, i); }
      }
      if sound {
        assert managed[..|managed|] == managed;
        RestoredElsewhere(before, start, root, managed, |managed|);
      }
      return Ok(());
    }

    /** backup_path: the first free `.bak` name; the loop ends because only finitely many names are taken. */
    method BackupPath(path: Path, timestamp: string) returns (candidate: Path)
      ensures candidate !in nodes
      ensures IsBak(path, timestamp, candidate)
      ensures candidate == BakName(path, timestamp) || (BakName(path, timestamp) in nodes &&
        exists n: nat :: n >= 1 && candidate == NumberedBak(path, timestamp, n) &&
          forall m: nat :: 1 <= m < n ==> NumberedBak(path, timestamp, m) in nodes)
    {
      candidate := BakName(path, timestamp);
      if candidate !in nodes { return; }
      var counter := 1;
      candidate := NumberedBak(path, timestamp, counter);
      while candidate in nodes
        invariant 1 <= counter <= |nodes.Keys| + 1 && candidate == NumberedBak(path, timestamp, counter)
        invariant forall m: nat :: 1 <= m < counter ==> NumberedBak(path, timestamp, m) in nodes.Keys
        decreases |nodes.Keys| + 1 - counter
      {
        counter := counter + 1;
        candidate := NumberedBak(path, timestamp, counter);
        TakenBaks(path, timestamp, counter - 1, nodes.Keys);
      }
    }

    /** atomic_write of the configuration script: a file with other content is first copied to one
        fresh `.bak` name. `saved` is the state before the replacement itself. */
    method ReplaceKeeping(path: Path, content: Content, mode: nat, timestamp: string)
        returns (ok: bool, ghost saved: Nodes)
      modifies this
      ensures nodes == if ok then saved[path := File(content, mode)] else saved
      ensures saved == old(nodes) ||
        (Differs(old(nodes), path, content) && BakAdded(old(nodes), saved, path, timestamp, mode))
      ensures ok && Differs(old(nodes), path, content) ==> BakAdded(old(nodes), saved, path, timestamp, mode)
      ensures ok ==> !(path in old(nodes) && old(nodes)[path].Folder?)
      ensures reliable ==> (ok <==> !(path in old(nodes) && old(nodes)[path].Folder?))
    {
      saved := nodes;
      if path in nodes {
        if nodes[path].Folder? { return false, saved; }
        if nodes[path].content == content {
          nodes := nodes[path := File(content, mode)];
          return true, saved;
        }
        var backup := BackupPath(path, timestamp);
        ok := AtomicWrite(backup, nodes[path].content, mode);
        if !ok { return; }
        saved := nodes;
      }
      ok := AtomicWrite(path, content, mode);
    }

    /** The writes of the preparation, by the script itself and by the generator, which may stop
        anywhere: earlier files change only at managed paths, new ones are managed or their `.bak` copies. */
    method WriteAll(
        root: Path, backup: Path, managed: seq<Path>, writes: seq<Write>, timestamp: string, ghost before: Nodes)
        returns (ok: bool)
      requires Separate(root, backup, managed) && '/' !in timestamp && Planned(managed, writes)
      requires Undisturbed(before, nodes, root, backup, managed, timestamp)
      modifies this
      ensures SameInside(backup, old(nodes), nodes)
      ensures Undisturbed(before, nodes, root, backup, managed, timestamp)
      ensures ok ==> forall write :: write in writes ==>
        root + write.path in nodes && nodes[root + write.path] == File(write.content, write.mode)
      ensures reliable && generates && !Obstructed(before, root, managed) ==> ok
    {
      for i := 0 to |writes|
        invariant SameInside(backup, old(nodes), nodes)
        invariant Undisturbed(before, nodes, root, backup, managed, timestamp)
        invariant forall k :: 0 <= k < i ==> Holding(nodes, root, writes[k])
      {
        var write := writes[i];
        var target := root + write.path;
        assert write in writes && write.path in managed && target in Rooted(root, managed);
        ghost var now := nodes;
        OthersElsewhere(root, managed, writes, i);
        var stops: bool := *;
        if stops && !generates { return false; }
        if write.keep {
          ghost var saved;
          ok, saved := ReplaceKeeping(target, write.content, write.mode, timestamp);
          BakKeeps(before, old(nodes), now, saved, root, backup, managed, target, timestamp, write.mode);
          if ok { WriteKeeps(before, old(nodes), saved, nodes, root, backup, managed, target, timestamp); }
        } else {
          ok := AtomicWrite(target, write.content, write.mode);
          if ok { WriteKeeps(before, old(nodes), now, nodes, root, backup, managed, target, timestamp); }
        }
        if !ok { return; }
        StillHolding(now, nodes, root, writes, i);
      }
      ok := true;
    }

    /** The --prepare path: back up, write the managed files, run the generator, and restore from the
        backup on any failure. Whatever happens, unmanaged files are kept and new files are managed,
        `.bak` copies of managed ones, or in the backup directory. After a restoration every earlier
        file is back, and the only new ones outside the backup directory are `.bak` copies. */
    method Prepare(root: Path, backup: Path, managed: seq<Path>, writes: seq<Write>, timestamp: string)
        returns (result: Result<(), Error>, restored: bool)
      requires Separate(root, backup, managed) && '/' !in timestamp && Planned(managed, writes)
      modifies this
      ensures Undisturbed(old(nodes), nodes, root, backup, managed, timestamp)
      ensures result.Ok? ==> forall write :: write in writes ==>
        root + write.path in nodes && nodes[root + write.path] == File(write.content, write.mode)
      ensures restored ==> result.Err?
      ensures restored ==> forall path :: path in old(nodes) && !Under(backup, path) ==>
        path in nodes && nodes[path] == old(nodes)[path]
      ensures restored ==> forall path :: path in nodes && path !in old(nodes) && !Under(backup, path) ==>
        path !in Rooted(root, managed) && BakOfManaged(root, managed, timestamp, path)
      ensures result.Err? && !restored && reliable ==>
        Obstructed(old(nodes), root, managed) || Present(old(nodes), backup)
      ensures reliable && generates ==>
        (result.Ok? <==> !Obstructed(old(nodes), root, managed) && !Present(old(nodes), backup))
    {
      restored := false;
      ghost var before := nodes;
      result := BackupFiles(root, backup, managed);
      if result.Err? { return; }
      ghost var copied := nodes;
      var ok := WriteAll(root, backup, managed, writes, timestamp, before);
      var generated: bool := *;
      if ok && (generated || generates) { return Ok(()), false; }
      HoldsElsewhere(before, copied, nodes, root, backup, digest, managed);
      ghost var dirty := nodes;
      var undone := RestoreFiles(root, backup, before, managed);
      RestorationUndisturbed(before, dirty, nodes, root, backup, managed, timestamp);
      if undone.Err? { return undone, false; }
      return Err(GeneratorFailed), true;
    }
  }

  /** One file that preparation writes; `keep` marks the configuration script's replacement. */
  datatype Write = Write(path: Path, content: Content, mode: nat, keep: bool)

  /** Something exists at or under the path. */
  predicate Present(nodes: Nodes, path: Path) {
    path in nodes || exists other :: other in nodes && Under(path, other)
  }

  function BakName(path: Path, timestamp: string): Path { path + ".bak." + timestamp }

  function NumberedBak(path: Path, timestamp: string, n: nat): Path {
    BakName(path, timestamp) + "." + Numerals.Print(n, 10)
  }

  /** A `.bak` name of the path. */
  ghost predicate IsBak(path: Path, timestamp: string, name: Path) {
    name == BakName(path, timestamp) || exists n: nat :: n >= 1 && name == NumberedBak(path, timestamp, n)
  }

  /** There is a file with other content. */
  predicate Differs(nodes: Nodes, path: Path, content: Content) {
    path in nodes && nodes[path].File? && nodes[path].content != content
  }

  /** Exactly one file is new: a copy of `path` under a `.bak` name that was free. */
  ghost predicate BakAdded(before: Nodes, after: Nodes, path: Path, timestamp: string, mode: nat) {
    && path in before && before[path].File?
    && exists bak ::
      bak !in before && IsBak(path, timestamp, bak) && after == before[bak := File(before[path].content, mode)]
  }

  ghost predicate BakOfManaged(root: Path, managed: seq<Path>, timestamp: string, name: Path) {
    exists path :: path in managed && IsBak(root + path, timestamp, name)
  }

  /** Each write goes to a managed path, and no two to the same. */
  predicate Planned(managed: seq<Path>, writes: seq<Write>) {
    && (forall write :: write in writes ==> write.path in managed)
    && forall i, j :: 0 <= i < j < |writes| ==> writes[i].path != writes[j].path
  }

  predicate Holding(nodes: Nodes, root: Path, write: Write) {
    root + write.path in nodes && nodes[root + write.path] == File(write.content, write.mode)
  }

  /** Outside the backup directory, earlier unmanaged files are kept, and new files are managed or
      `.bak` copies of managed ones. */
  ghost predicate Undisturbed(before: Nodes, now: Nodes, root: Path, backup: Path, managed: seq<Path>,
      timestamp: string)
  {
    && KeptOutside(before, now, root, backup, managed) && NoNewFolders(before, now)
    && forall path :: path in now && path !in before && !Under(backup, path) ==>
      path in Rooted(root, managed) || BakOfManaged(root, managed, timestamp, path)
  }

  lemma OthersElsewhere(root: Path, managed: seq<Path>, writes: seq<Write>, i: nat)
    requires Planned(managed, writes) && i < |writes|
    ensures forall k :: 0 <= k < i ==> root + writes[k].path != root + writes[i].path
  {
    forall k | 0 <= k < i ensures root + writes[k].path != root + writes[i].path {
      if root + writes[k].path == root + writes[i].path { RootedInjective(root, writes[k].path, writes[i].path); }
    }
  }

  lemma StillHolding(now: Nodes, next: Nodes, root: Path, writes: seq<Write>, i: nat)
    requires i < |writes| && Holding(next, root, writes[i])
    requires forall k :: 0 <= k < i ==> Holding(now, root, writes[k]) && root + writes[k].path != root + writes[i].path
    requires forall path :: path in now && path != root + writes[i].path ==> path in next && next[path] == now[path]
    ensures forall k :: 0 <= k <= i ==> Holding(next, root, writes[k])
  {
  }

  /** A name next to `path`: `path` followed by a suffix without a slash. */
  ghost predicate Beside(path: Path, name: Path) {
    path < name && '/' !in name[|path|..]
  }

  lemma SuffixBeside(path: Path, suffix: string)
    requires suffix != "" && '/' !in suffix
    ensures Beside(path, path + suffix)
  {
    assert (path + suffix)[|path|..] == suffix;
  }

  lemma BaksBeside(path: Path, timestamp: string, name: Path)
    requires '/' !in timestamp && IsBak(path, timestamp, name)
    ensures Beside(path, name)
  {
    var suffix := ".bak." + timestamp;
    if name == BakName(path, timestamp) {
      SuffixBeside(path, suffix);
      assert name == path + suffix;
    } else {
      var n: nat :| n >= 1 && name == NumberedBak(path, timestamp, n);
      NoSlashInDigits(n);
      SuffixBeside(path, suffix + "." + Numerals.Print(n, 10));
      assert name == path + (suffix + "." + Numerals.Print(n, 10));
    }
  }

  lemma NoSlashInDigits(n: nat)
    ensures '/' !in Numerals.Print(n, 10)
  {
    assert Numerals.DIGITS[..10] == "0123456789";
  }

  lemma TakenBaks(path: Path, timestamp: string, n: nat, taken: set<Path>)
    requires forall m: nat :: 1 <= m < n + 1 ==> NumberedBak(path, timestamp, m) in taken
    ensures n <= |taken|
  {
    var name := (m: nat) => NumberedBak(path, timestamp, m);
    forall i: nat, j: nat | name(i) == name(j) ensures i == j {
      var stem := BakName(path, timestamp) + ".";
      assert NumberedBak(path, timestamp, i)[|stem|..] == Numerals.Print(i, 10);
      assert NumberedBak(path, timestamp, j)[|stem|..] == Numerals.Print(j, 10);
      Numerals.PrintInjective(i, j, 10);
    }
    NamedAre(name, 1, n);
    TakenNames(name, 1, n, taken);
  }

  /** Files outside the backup directory that are not managed are as before. */
  ghost predicate KeptOutside(before: Nodes, now: Nodes, root: Path, backup: Path, managed: seq<Path>) {
    forall path :: path in before && !Under(backup, path) && path !in Rooted(root, managed) ==>
      path in now && now[path] == before[path]
  }

  /** A name next to a path is inside the backup directory only if the path is. */
  lemma BakOutside(backup: Path, path: Path, name: Path)
    requires Beside(path, name)
    ensures Under(backup, name) ==> Under(backup, path)
  {
    var suffix := name[|path|..];
    forall i | |path| <= i < |name| ensures name[i] != '/' {
      assert name[i] == suffix[i - |path|] && suffix[i - |path|] in suffix;
    }
    if Under(backup, name) {
      assert name[|backup|] == (backup + "/")[|backup|];
      assert path == name[..|path|] && |backup| < |path|;
      assert path[..|backup| + 1] == name[..|backup| + 1] == backup + "/";
    }
  }

  /** Copying a managed file to a `.bak` name disturbs neither the backup directory nor earlier files. */
  lemma BakKeeps(
    before: Nodes, copied: Nodes, now: Nodes, next: Nodes, root: Path, backup: Path, managed: seq<Path>,
    target: Path, timestamp: string, mode: nat)
    requires SameInside(backup, copied, now) && Undisturbed(before, now, root, backup, managed, timestamp)
    requires target in Rooted(root, managed) && !Under(backup, target) && '/' !in timestamp
    requires next == now || BakAdded(now, next, target, timestamp, mode)
    ensures SameInside(backup, copied, next) && Undisturbed(before, next, root, backup, managed, timestamp)
  {
    if next != now {
      var bak :| bak !in now && IsBak(target, timestamp, bak) && next == now[bak := File(now[target].content, mode)];
      BaksBeside(target, timestamp, bak);
      BakOutside(backup, target, bak);
      var path :| path in managed && root + path == target;
      assert BakOfManaged(root, managed, timestamp, bak);
    }
  }

  /** Writing a managed path disturbs neither the backup directory nor unmanaged files. */
  lemma WriteKeeps(
    before: Nodes, copied: Nodes, now: Nodes, next: Nodes, root: Path, backup: Path, managed: seq<Path>,
    target: Path, timestamp: string)
    requires SameInside(backup, copied, now) && Undisturbed(before, now, root, backup, managed, timestamp)
    requires target in Rooted(root, managed) && !Under(backup, target)
    requires target in next && next[target].File? && next == now[target := next[target]]
    ensures SameInside(backup, copied, next) && Undisturbed(before, next, root, backup, managed, timestamp)
  {
  }

  /** Restoring managed paths keeps everything undisturbed. */
  lemma RestorationUndisturbed(
    before: Nodes, dirty: Nodes, next: Nodes, root: Path, backup: Path, managed: seq<Path>, timestamp: string)
    requires Undisturbed(before, dirty, root, backup, managed, timestamp) && NoNewFolders(dirty, next)
    requires next - Rooted(root, managed) == dirty - Rooted(root, managed)
    ensures Undisturbed(before, next, root, backup, managed, timestamp)
  {
    var paths := Rooted(root, managed);
    forall path | path !in paths ensures path in next <==> path in dirty
      ensures path in next ==> next[path] == dirty[path]
    {
      assert path in next - paths <==> path in dirty - paths;
      if path in next { assert (next - paths)[path] == (dirty - paths)[path]; }
    }
  }

  lemma NamesDistinct(interface: string)
    ensures Distinct(BelowEtc(interface))
  {
    var names := BelowEtc(interface);
    assert |names[0]| == 15 + |interface| && |names[1]| == 22 + |interface| && names[0][0] == names[1][0] == 'w';
    assert names[2][0] == names[3][0] == 'd' && |names[2]| == 12 && |names[3]| == 25;
    assert SYSTEMD[0] == 's' && names[4][0] == names[6][0] == 's' && |names[4]| == 48 && |names[6]| == 37;
    assert names[5][0] == names[7][0] == names[8][0] == 's' && |names[5]| == 23 && |names[7]| == 11 && |names[8]| == 27;
    assert names[9][0] == 'i' && |names[9]| == 17;
    assert names[10][0] == names[11][0] == 's' && |names[10]| == |names[11]| == 21;
    assert names[10][10] == '-' && names[11][10] == '/';
  }

  lemma InEtcDistinct(names: seq<Path>)
    requires Distinct(names)
    ensures Distinct(InEtc(names))
    ensures forall path :: path in InEtc(names) ==> |path| >= 5 && path[0] == '/' && path[1] == 'e'
  {
    var paths := InEtc(names);
    forall i | 0 <= i < |names| ensures paths[i][5..] == names[i] && paths[i][0] == '/' && paths[i][1] == 'e' {
      assert paths[i] == ETC + names[i];
    }
  }

  /** The managed paths are absolute and pairwise different, whatever the tunnel interface is called. */
  lemma ManagedPathsDistinct(interface: string)
    ensures Distinct(ManagedPaths(interface))
    ensures forall path :: path in ManagedPaths(interface) ==> |path| >= 5 && path[0] == '/' && path[1] == 'e'
  {
    NamesDistinct(interface);
    InEtcDistinct(BelowEtc(interface));
  }

  /** Private key, client key and setup file, then the four generated configuration files. */
  function PreparedNames(interface: string): seq<Path> {
    ["wireguard/" + interface + ".private.key",
     "snarkypuss/client.pub",
     "snarkypuss-setup.conf",
     "wireguard/" + interface + ".conf",
     "snarkypuss/dnsmasq.conf",
     SYSTEMD + "snarkypuss-dns.service",
     "sysctl.d/90-snarkypuss.conf"]
  }

  function PreparedFiles(interface: string): seq<Path> { InEtc(PreparedNames(interface)) }

  /** Where the prepared files stand among the managed paths. */
  const PREPARED: seq<nat> := [1, 11, 10, 0, 5, 6, 8]

  lemma NamesPicked(interface: string, i: nat)
    requires i < 7
    ensures PREPARED[i] < 12 && PreparedNames(interface)[i] == BelowEtc(interface)[PREPARED[i]]
    ensures forall j :: 0 <= j < 7 && j != i ==> PREPARED[j] != PREPARED[i]
  {
  }

  /** Picking different entries of a list without repetitions. */
  lemma InEtcPicks(names: seq<Path>, picked: seq<Path>, at: seq<nat>)
    requires Distinct(names) && |at| == |picked|
    requires forall i :: 0 <= i < |at| ==> at[i] < |names| && picked[i] == names[at[i]]
    requires forall i, j :: 0 <= i < j < |at| ==> at[i] != at[j]
    ensures Distinct(InEtc(picked)) && forall path :: path in InEtc(picked) ==> path in InEtc(names)
  {
    forall i | 0 <= i < |picked| ensures InEtc(picked)[i] in InEtc(names) {
      assert InEtc(picked)[i] == InEtc(names)[at[i]];
    }
    forall i, j | 0 <= i < j < |picked| ensures picked[i] != picked[j] {
      assert at[i] < at[j] || at[j] < at[i];
    }
    InEtcDistinct(picked);
  }

  /** The files that the migration script and the configuration script write are all managed, and
      pairwise different. */
  lemma PreparedFilesAreManaged(interface: string)
    ensures Distinct(PreparedFiles(interface))
    ensures forall path :: path in PreparedFiles(interface) ==> path in ManagedPaths(interface)
  {
    NamesDistinct(interface);
    forall i | 0 <= i < 7 ensures PREPARED[i] < 12 && PreparedNames(interface)[i] == BelowEtc(interface)[PREPARED[i]]
      ensures forall j :: 0 <= j < 7 && j != i ==> PREPARED[j] != PREPARED[i]
    {
      NamesPicked(interface, i);
    }
    InEtcPicks(BelowEtc(interface), PreparedNames(interface), PREPARED);
  }

  const DEFAULT_BACKUP_ROOT := "/var/backups/snarkypuss"

  lemma BackupRootBelowVar()
    ensures |DEFAULT_BACKUP_ROOT| >= 2 && DEFAULT_BACKUP_ROOT[1] == 'v'
  {
  }

  /** A directory that does not begin like /etc is apart from everything in it. */
  lemma ApartFromEtc(root: Path, parent: Path, name: string, managed: seq<Path>)
    requires |parent| >= 2 && parent[1] != 'e' && Distinct(managed)
    requires forall path :: path in managed ==> |path| >= 5 && path[0] == '/' && path[1] == 'e'
    ensures Separate(root, root + parent + "/" + name, managed)
  {
    forall path | path in managed ensures !Under(root + parent + "/" + name, root + path) {
      SecondLettersDiffer(root, parent, name, path);
    }
  }

  /** The preconditions of Prepare hold for the real paths: a directory below the default backup
      root is apart from every managed path, whatever the root and the interface. */
  lemma RealPathsSeparate(root: Path, interface: string, name: string)
    ensures Separate(root, root + DEFAULT_BACKUP_ROOT + "/" + name, ManagedPaths(interface))
  {
    ManagedPathsDistinct(interface);
    BackupRootBelowVar();
    ApartFromEtc(root, DEFAULT_BACKUP_ROOT, name, ManagedPaths(interface));
  }

  lemma SecondLettersDiffer(root: Path, parent: Path, name: string, path: Path)
    requires |parent| >= 2 && |path| >= 2 && parent[1] != path[1]
    ensures !Under(root + parent + "/" + name, root + path)
  {
    var at := |root| + 1;
    assert (root + parent + "/" + name + "/")[at] == parent[1] && (root + path)[at] == path[1];
  }

  /** The writes of both scripts are as Prepare requires. */
  lemma RealWritesPlanned(interface: string, writes: seq<Write>)
    requires |writes| == |PreparedFiles(interface)|
    requires forall i :: 0 <= i < |writes| ==> writes[i].path == PreparedFiles(interface)[i]
    ensures Planned(ManagedPaths(interface), writes)
  {
    PreparedFilesAreManaged(interface);
  }

  ghost predicate NoNewFolders(before: Nodes, after: Nodes) {
    forall path :: path in after && after[path].Folder? ==> path in before && before[path].Folder?
  }

  predicate FolderAt(nodes: Nodes, root: Path, path: Path) {
    root + path in nodes && nodes[root + path].Folder?
  }

  /** What restoring one entry does. */
  ghost predicate Applied(root: Path, backup: Path, entry: Entry, before: Nodes, after: Nodes) {
    var destination, source := root + entry.path, backup + "/" + entry.backup;
    if entry.existed then
      && source in before && before[source].File?
      && after == before[destination := File(before[source].content, entry.mode)]
    else after == before - {destination}
  }

  /** The entry passes every check of restore_files. */
  ghost predicate Usable(digest: Content -> string, backup: Path, entry: Entry, nodes: Nodes) {
    var source := backup + "/" + entry.backup;
    && entry.path != [] && entry.path[0] == '/'
    && (entry.existed ==>
      && (entry.backup == [] || entry.backup[0] != '/')
      && source in nodes && nodes[source].File? && digest(nodes[source].content) == entry.sha256)
  }

  lemma RestoreNext(before: Nodes, start: Nodes, now: Nodes, root: Path, backup: Path, digest: Content -> string,
      managed: seq<Path>, i: nat)
    requires Holds(before, start, root, backup, digest, managed) && Separate(root, backup, managed) && i < |managed|
    requires now == Restored(before, start, Rooted(root, managed[..i]))
    ensures var entry := start[ManifestPath(backup)].content.entries[i];
      Usable(digest, backup, entry, now) && (FolderAt(now, root, entry.path) <==> FolderAt(start, root, managed[i]))
  {
    var path := managed[i];
    assert EntryHolds(before, start, root, backup, digest, path, start[ManifestPath(backup)].content.entries[i]);
    assert path in managed;
    NotYet(root, managed, i);
    CopiesApart(root, backup, managed, path);
    assert backup + "/" + ("files" + path) == CopyPath(backup, path);
    assert CopyPath(backup, path) !in Rooted(root, managed[..i]);
  }

  lemma RestoreStep(before: Nodes, start: Nodes, now: Nodes, next: Nodes, root: Path, backup: Path,
      digest: Content -> string, managed: seq<Path>, i: nat)
    requires Holds(before, start, root, backup, digest, managed) && Separate(root, backup, managed) && i < |managed|
    requires now == Restored(before, start, Rooted(root, managed[..i]))
    requires Applied(root, backup, start[ManifestPath(backup)].content.entries[i], now, next)
    ensures next == Restored(before, start, Rooted(root, managed[..i + 1]))
  {
    var path, entry := managed[i], start[ManifestPath(backup)].content.entries[i];
    var done := Rooted(root, managed[..i]);
    assert EntryHolds(before, start, root, backup, digest, path, entry);
    assert path in managed;
    CopiesApart(root, backup, managed, path);
    assert backup + "/" + ("files" + path) == CopyPath(backup, path);
    assert Rooted(root, managed[..i + 1]) == done + {root + path} by {
      assert managed[..i + 1] == managed[..i] + [path];
    }
    RestoredGrows(before, start, done, root + path);
    if entry.existed {
      assert CopyPath(backup, path) !in done;
      assert now[CopyPath(backup, path)] == start[CopyPath(backup, path)];
    }
  }

  lemma RestoredGrows(before: Nodes, start: Nodes, paths: set<Path>, path: Path)
    ensures Restored(before, start, paths + {path}) ==
      if path in before then Restored(before, start, paths)[path := before[path]]
      else Restored(before, start, paths) - {path}
  {
  }

  lemma RestoredElsewhere(before: Nodes, start: Nodes, root: Path, managed: seq<Path>, i: nat)
    requires i <= |managed|
    ensures Restored(before, start, Rooted(root, managed[..i])) - Rooted(root, managed) == start - Rooted(root, managed)
  {
    assert Rooted(root, managed[..i]) <= Rooted(root, managed);
  }

  lemma OthersKept(backup: Path, managed: seq<Path>, i: nat)
    requires Distinct(managed) && i <= |managed| && forall path :: path in managed ==> path != [] && path[0] == '/'
    ensures forall k :: 0 <= k < i ==> CopyPath(backup, managed[k]) != ManifestPath(backup)
    ensures i < |managed| ==> forall k :: 0 <= k < i ==> CopyPath(backup, managed[k]) != CopyPath(backup, managed[i])
  {
    forall k | 0 <= k < i
      ensures CopyPath(backup, managed[k]) != ManifestPath(backup)
      ensures i < |managed| ==> CopyPath(backup, managed[k]) != CopyPath(backup, managed[i])
    {
      assert managed[k] in managed;
      CopyPlacement(backup, managed[k], if i < |managed| then managed[i] else "");
    }
  }

  lemma NotYet(root: Path, managed: seq<Path>, i: nat)
    requires Distinct(managed) && i < |managed|
    ensures root + managed[i] !in Rooted(root, managed[..i])
  {
    if root + managed[i] in Rooted(root, managed[..i]) {
      var k :| 0 <= k < i && root + managed[k] == root + managed[i];
      RootedInjective(root, managed[k], managed[i]);
    }
  }

  lemma CopiesApart(root: Path, backup: Path, managed: seq<Path>, path: Path)
    requires Separate(root, backup, managed) && path in managed
    ensures CopyPath(backup, path) !in Rooted(root, managed)
  {
    CopyPlacement(backup, path, path);
  }
}
