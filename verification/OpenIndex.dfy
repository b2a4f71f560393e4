/** The index of opens by file (openindex.go), which answers for the global table of opens without walking it. */
module OpenIndex {
  import opened Bytes

  /** The name of a file without the folders it is in. */
  function TrimPath(path: string): string {
    if path == [] then []
    else if path[|path| - 1] == '/' || path[|path| - 1] == '\\' then []
    else TrimPath(path[..|path| - 1]) + [path[|path| - 1]]
  }

  predicate IsSeparator(c: char) { c == '/' || c == '\\' }

  /** It is what follows the last separator, or all of the path if there is none. */
  lemma {:induction false} NameIsLast(path: string)
    ensures IsLast(path, TrimPath(path))
  {
    hide IsLast, TrimPath;
    TrimmedOnce(path);
    if path == [] || IsSeparator(path[|path| - 1]) {
      NoName(path);
    } else {
      var n := |path| - 1;
      NameIsLast(path[..n]);
      LongerName(path[..n], TrimPath(path[..n]), path[n]);
      assert path[..n] + [path[n]] == path;
    }
  }

  lemma TrimmedOnce(path: string)
    ensures TrimPath(path) == if path == [] || IsSeparator(path[|path| - 1]) then []
                              else TrimPath(path[..|path| - 1]) + [path[|path| - 1]]
  {
  }

  /** The name is the end of the path, up to the last separator in it. */
  ghost predicate IsLast(path: string, name: string) {
    && |name| <= |path| && path[|path| - |name|..] == name && (forall i | 0 <= i < |name| :: !IsSeparator(name[i]))
    && (|name| < |path| ==> IsSeparator(path[|path| - |name| - 1]))
  }

  lemma NoName(path: string)
    ensures path == [] || IsSeparator(path[|path| - 1]) ==> IsLast(path, [])
  {
  }

  lemma LongerName(path: string, name: string, c: char)
    requires IsLast(path, name) && !IsSeparator(c)
    ensures IsLast(path + [c], name + [c])
  {
    assert (path + [c])[|path| - |name|..] == name + [c];
  }

  /** The path of what lies beneath a renamed folder. */
  function Rebased(path: string, oldPath: string, newPath: string): string
    requires oldPath + "/" <= path
  {
    newPath + "/" + path[|oldPath| + 1..]
  }

  class Open {
    const id: nat
    const share: string
    var pathName: string
    var fileName: string

    constructor (id: nat, share: string, path: string)
      ensures this.id == id && this.share == share && pathName == path && fileName == TrimPath(path)
    {
      this.id, this.share, pathName, fileName := id, share, path, TrimPath(path);
    }

    function Key(): FileKey
      reads this
    {
      FileKey(share, pathName)
    }
  }

  /** Under which name each open is. */
  ghost function NamesOf(table: map<nat, Open>): map<nat, FileKey>
    reads table.Values
  {
    map id | id in table :: table[id].Key()
  }

  type Buckets = map<FileKey, map<nat, Open>>

  predicate Has(buckets: Buckets, k: FileKey, id: nat) {
    k in buckets && id in buckets[k]
  }

  /** Every open is in the bucket of the name it carries and in no other, and no bucket is empty. */
  ghost predicate Filed(names: map<nat, FileKey>, table: map<nat, Open>, buckets: Buckets) {
    && names.Keys == table.Keys
    && (forall id | id in names :: Has(buckets, names[id], id))
    && (forall k, id | Has(buckets, k, id) :: id in names && names[id] == k && table[id] == buckets[k][id])
    && (forall k | k in buckets :: buckets[k] != map[])
  }

  function Added(buckets: Buckets, key: FileKey, id: nat, op: Open): Buckets {
    var bucket: map<nat, Open> := if key in buckets then buckets[key] else map[];
    buckets[key := bucket[id := op]]
  }

  function Dropped(buckets: Buckets, key: FileKey, id: nat): Buckets {
    if key !in buckets then buckets
    else
      var bucket := buckets[key] - {id};
      if bucket == map[] then buckets - {key} else buckets[key := bucket]
  }

  lemma AddedHas(buckets: Buckets, key: FileKey, id: nat, op: Open)
    ensures var r := Added(buckets, key, id, op);
            && (forall k, i :: Has(r, k, i) <==> Has(buckets, k, i) || (k == key && i == id))
            && (forall k, i | Has(r, k, i) :: r[k][i] == if k == key && i == id then op else buckets[k][i])
            && forall k | k in r :: k == key || (k in buckets && r[k] == buckets[k])
  {
  }

  lemma AddingFiles(names: map<nat, FileKey>, table: map<nat, Open>, buckets: Buckets, key: FileKey, id: nat, op: Open)
    requires Filed(names, table, buckets) && id !in names
    ensures Filed(names[id := key], table[id := op], Added(buckets, key, id, op))
  {
    hide Added, Has;
    AddedHas(buckets, key, id, op);
    NotEmpty(Added(buckets, key, id, op), key, id);
  }

  lemma NotEmpty(buckets: Buckets, key: FileKey, id: nat)
    requires Has(buckets, key, id)
    ensures key in buckets && buckets[key] != map[]
  {
  }

  lemma DroppedHas(buckets: Buckets, key: FileKey, id: nat)
    ensures var r := Dropped(buckets, key, id);
            && (forall k, i :: Has(r, k, i) <==> Has(buckets, k, i) && !(k == key && i == id))
            && (forall k, i | Has(r, k, i) :: r[k][i] == buckets[k][i])
            && forall k | k in r :: k in buckets && (r[k] == buckets[k] || r[k] != map[])
  {
    var r := Dropped(buckets, key, id);
    if key in buckets {
      assert forall i :: i in buckets[key] - {id} <==> i in buckets[key] && i != id;
    }
  }

  lemma DroppingFiles(names: map<nat, FileKey>, table: map<nat, Open>, buckets: Buckets, id: nat)
    requires Filed(names, table, buckets) && id in names
    ensures Filed(names - {id}, table - {id}, Dropped(buckets, names[id], id))
  {
    hide Dropped, Has;
    DroppedHas(buckets, names[id], id);
  }

  lemma DroppingWhatIsFiled(names: map<nat, FileKey>, table: map<nat, Open>, buckets: Buckets, key: FileKey, id: nat)
    requires Filed(names, table, buckets) && (id in names ==> names[id] == key)
    ensures Filed(names - {id}, table - {id}, Dropped(buckets, key, id))
  {
    if id in names {
      DroppingFiles(names, table, buckets, id);
    } else {
      assert key in buckets ==> buckets[key] - {id} == buckets[key];
      assert names - {id} == names && table - {id} == table && Dropped(buckets, key, id) == buckets;
    }
  }

  lemma NamesLess(table: map<nat, Open>, id: nat)
    ensures NamesOf(table - {id}) == NamesOf(table) - {id}
    ensures forall i | i in table :: i in NamesOf(table) && NamesOf(table)[i] == table[i].Key()
    ensures NamesOf(table).Keys == table.Keys
  {
  }

  lemma MovingFiles(names: map<nat, FileKey>, table: map<nat, Open>, buckets: Buckets, key: FileKey, id: nat)
    requires Filed(names, table, buckets) && id in names
    ensures Filed(names[id := key], table, Added(Dropped(buckets, names[id], id), key, id, table[id]))
  {
    hide Filed, Dropped, Added;
    assert names.Keys == table.Keys by { SameKeys(names, table, buckets); }
    DroppingFiles(names, table, buckets, id);
    AddingFiles(names - {id}, table - {id}, Dropped(buckets, names[id], id), key, id, table[id]);
    assert (names - {id})[id := key] == names[id := key] && (table - {id})[id := table[id]] == table;
  }

  lemma SameKeys(names: map<nat, FileKey>, table: map<nat, Open>, buckets: Buckets)
    requires Filed(names, table, buckets)
    ensures names.Keys == table.Keys
  {
  }

  class Index {
    /** The global table of opens, by durable file ID. */
    var table: map<nat, Open>

    var opensByFile: map<FileKey, map<nat, Open>>

    ghost predicate Valid()
      reads this, table.Values
    {
      && (forall id | id in table :: table[id].id == id && table[id].fileName == TrimPath(table[id].pathName))
      && Filed(NamesOf(table), table, opensByFile)
    }

    constructor ()
      ensures Valid() && NamesOf(table) == map[] && table == map[]
    {
      table, opensByFile := map[], map[];
    }

    /** Puts an open into the table and into the index. */
    method IndexOpen(op: Open)
      requires Valid() && op.id !in table && op.fileName == TrimPath(op.pathName)
      modifies this
      ensures Valid() && table == old(table)[op.id := op] && NamesOf(table) == old(NamesOf(table))[op.id := op.Key()]
    {
      hide Filed, TrimPath;
      AddingFiles(NamesOf(table), table, opensByFile, op.Key(), op.id, op);
      table := table[op.id := op];
      assert NamesOf(table) == old(NamesOf(table))[op.id := op.Key()];
      AddToBucket(op.Key(), op);
    }

    method AddToBucket(key: FileKey, op: Open)
      modifies this`opensByFile
      ensures opensByFile == Added(old(opensByFile), key, op.id, op)
    {
      var bucket: map<nat, Open> := map[];
      if key in opensByFile {
        bucket := opensByFile[key];
      }
      opensByFile := opensByFile[key := bucket[op.id := op]];
    }

    method DropFromBucket(key: FileKey, id: nat)
      modifies this`opensByFile
      ensures opensByFile == Dropped(old(opensByFile), key, id)
    {
      if key !in opensByFile {
        return;
      }
      var bucket := opensByFile[key] - {id};
      opensByFile := opensByFile[key := bucket];
      if |bucket| == 0 {
        opensByFile := opensByFile - {key};
      }
    }

    /** Takes an open out of the table and out of the index. */
    method UnindexOpen(op: Open)
      requires Valid() && (op.id in table ==> table[op.id] == op)
      modifies this
      ensures Valid() && table == old(table) - {op.id} && NamesOf(table) == old(NamesOf(table)) - {op.id}
    {
      hide Filed, TrimPath, Dropped, NamesOf;
      NamesLess(table, op.id);
      DroppingWhatIsFiled(NamesOf(table), table, opensByFile, op.Key(), op.id);
      table := table - {op.id};
      DropFromBucket(op.Key(), op.id);
    }

    method PointAt(op: Open, newPath: string)
      requires (forall id | id in table :: table[id].id == id) && (op.id in table ==> table[op.id] == op)
      modifies op
      ensures op.pathName == newPath && op.fileName == TrimPath(newPath)
      ensures NamesOf(table) == if op.id in table then old(NamesOf(table))[op.id := op.Key()] else old(NamesOf(table))
    {
      hide TrimPath;
      op.pathName := newPath;
      op.fileName := TrimPath(newPath);
    }

    /** Gives an open another path. While it is in the index it changes buckets with it; once it is closed only its
        name changes. */
    method MoveOpen(op: Open, newPath: string)
      requires Valid() && (op.id in table ==> table[op.id] == op)
      modifies this`opensByFile, op
      ensures Valid() && op.pathName == newPath
      ensures NamesOf(table) == if op.id in table then old(NamesOf(table))[op.id := op.Key()] else old(NamesOf(table))
    {
      hide Filed, TrimPath, Dropped, Added, NamesOf;
      var oldKey := op.Key();
      WhereItIs(op);
      NamesLess(table, op.id);
      PointAt(op, newPath);
      if oldKey !in opensByFile || op.id !in opensByFile[oldKey] {
        return;
      }
      MovingFiles(old(NamesOf(table)), table, opensByFile, op.Key(), op.id);
      DropFromBucket(oldKey, op.id);
      AddToBucket(op.Key(), op);
    }

    /** The bucket of a name holds exactly the opens that bear it. */
    lemma BucketIs(key: FileKey)
      requires Valid() && key in opensByFile
      ensures forall id :: id in opensByFile[key] <==> id in table && table[id].Key() == key
      ensures forall id | id in opensByFile[key] :: opensByFile[key][id] == table[id] && table[id].id == id
    {
    }

    lemma NoBucketNoOpen(key: FileKey)
      requires Valid() && key !in opensByFile
      ensures forall id | id in table :: table[id].Key() != key
    {
    }

    /** An open is in the bucket of its name exactly if it is in the table. */
    lemma WhereItIs(op: Open)
      requires Valid() && (op.id in table ==> table[op.id] == op)
      ensures op.id in table <==> op.Key() in opensByFile && op.id in opensByFile[op.Key()]
    {
    }

    /** The opens on a file, other than the one given: what a walk of the whole table would find. */
    method OpensOn(share: string, path: string, except: Open?) returns (opens: set<Open>)
      requires Valid()
      ensures forall o | o in opens :: o.id in table && table[o.id] == o
      ensures forall id | id in table :: table[id] in opens <==> NamesOf(table)[id] == FileKey(share, path) && table[id] != except
    {
      hide TrimPath, Filed;
      opens := {};
      var key := FileKey(share, path);
      if key !in opensByFile {
        NoBucketNoOpen(key);
        return;
      }
      var bucket := opensByFile[key];
      BucketIs(key);
      var todo := bucket.Keys;
      while todo != {}
        invariant todo <= bucket.Keys
        invariant forall o | o in opens :: o.id in table && table[o.id] == o && o.id in bucket
        invariant forall id | id in bucket :: bucket[id] in opens <==> id !in todo && bucket[id] != except
        decreases todo
      {
        var id :| id in todo;
        todo := todo - {id};
        var op := bucket[id];
        if op != except && op.share == share && op.pathName == path {
          opens := opens + {op};
        }
      }
    }

    /** Points each of the opens listed at its new path. */
    method MoveAll(moves: map<nat, string>)
      requires Valid() && forall id | id in moves :: id in table
      modifies this`opensByFile, table.Values
      ensures Valid()
      ensures forall id | id in table ::
                table[id].Key() == if id in moves then FileKey(table[id].share, moves[id]) else old(table[id].Key())
    {
      hide Filed, TrimPath, NamesOf;
      var todo := moves.Keys;
      while todo != {}
        invariant Valid() && todo <= moves.Keys
        invariant forall id | id in table ::
                    table[id].Key() == if id in moves && id !in todo then FileKey(table[id].share, moves[id])
                                       else old(table[id].Key())
        decreases todo
      {
        var id :| id in todo;
        todo := todo - {id};
        MoveOpen(table[id], moves[id]);
      }
    }

    method AllTo(opens: set<Open>, newName: string) returns (moves: map<nat, string>)
      requires Valid() && forall o | o in opens :: o.id in table && table[o.id] == o
      ensures forall id | id in table :: id in moves <==> table[id] in opens
      ensures forall id | id in moves :: id in table && moves[id] == newName
    {
      hide Filed, TrimPath, NamesOf;
      moves := map o | o in opens :: o.id := newName;
    }

    /** Points every open on a file at its new name. */
    method MoveOpensOnFile(share: string, path: string, newName: string) returns (moved: set<Open>)
      requires Valid()
      modifies this`opensByFile, table.Values
      ensures Valid() && NamesOf(table) == FileRenamed(old(NamesOf(table)), FileKey(share, path), newName)
      ensures forall id | id in table :: table[id] in moved <==> old(NamesOf(table))[id] == FileKey(share, path)
    {
      hide Valid, TrimPath;
      moved := OpensOn(share, path, null);
      var moves := AllTo(moved, newName);
      MoveAll(moves);
    }

    /** The opens beneath a folder, and where each of them goes. */
    method CollectUnder(share: string, oldPath: string, newPath: string) returns (moves: map<nat, string>)
      requires Valid()
      ensures forall id :: id in moves <==> id in table && Beneath(table[id].Key(), share, oldPath)
      ensures forall id | id in moves ::
                id in table && Beneath(table[id].Key(), share, oldPath) && moves[id] == Rebased(table[id].pathName, oldPath, newPath)
    {
      hide TrimPath;
      moves := map[];
      var keys := opensByFile.Keys;
      while keys != {}
        invariant keys <= opensByFile.Keys
        invariant forall id :: id in moves <==> id in table && Beneath(table[id].Key(), share, oldPath) && table[id].Key() !in keys
        invariant forall id | id in moves :: moves[id] == Rebased(table[id].pathName, oldPath, newPath)
        decreases keys
      {
        var key :| key in keys;
        keys := keys - {key};
        if Beneath(key, share, oldPath) {
          moves := CollectBucket(key, Rebased(key.path, oldPath, newPath), moves);
        }
      }
    }

    method CollectBucket(key: FileKey, path: string, moves: map<nat, string>) returns (r: map<nat, string>)
      requires Valid() && key in opensByFile
      ensures forall id :: id in r <==> id in moves || (id in table && table[id].Key() == key)
      ensures forall id | id in r :: r[id] == if id in table && table[id].Key() == key then path else moves[id]
    {
      hide TrimPath, Filed;
      r := moves;
      var bucket := opensByFile[key];
      BucketIs(key);
      var todo := bucket.Keys;
      while todo != {}
        invariant todo <= bucket.Keys
        invariant forall id :: id in r <==> id in moves || (id in bucket && id !in todo)
        invariant forall id | id in r :: r[id] == if id in bucket && id !in todo then path else moves[id]
        decreases todo
      {
        var id :| id in todo;
        todo := todo - {id};
        r := r[id := path];
      }
    }

    /** Points every open beneath a renamed folder at its path under the new name. All are found before the first is
        moved, so that what a move puts beneath the folder is not moved again. */
    method MoveOpensUnder(share: string, oldPath: string, newPath: string)
      requires Valid()
      modifies this`opensByFile, table.Values
      ensures Valid() && NamesOf(table) == TreeRenamed(old(NamesOf(table)), share, oldPath, newPath)
    {
      hide Filed, TrimPath, Rebased, Beneath;
      var moves := CollectUnder(share, oldPath, newPath);
      forall id | id in moves ensures table[id].share == share {
        SameShare(table[id].Key(), share, oldPath);
      }
      MoveAll(moves);
    }
  }

  predicate Beneath(key: FileKey, share: string, folder: string) {
    key.share == share && folder + "/" <= key.path
  }

  /** What lies beneath a folder is named by the folder, a separator and the rest; the rest stays as it was. */
  lemma KeepsTheRest(share: string, folder: string, rest: string, newName: string)
    ensures Beneath(FileKey(share, folder + "/" + rest), share, folder)
    ensures Rebased(folder + "/" + rest, folder, newName) == newName + "/" + rest
  {
    var path := folder + "/" + rest;
    assert folder + "/" <= path;
    assert path[|folder| + 1..] == rest;
  }

  /** Nothing else lies beneath it. */
  lemma BeneathIs(key: FileKey, share: string, folder: string)
    ensures Beneath(key, share, folder) <==> key.share == share && exists rest: string :: key.path == folder + "/" + rest
  {
    if Beneath(key, share, folder) {
      assert key.path == folder + "/" + key.path[|folder| + 1..];
    } else if rest: string :| key.path == folder + "/" + rest {
      KeepsTheRest(key.share, folder, rest, folder);
    }
  }

  /** Every open beneath the folder is then beneath the new name by the rest of its path, and no other open changes its
      name. */
  lemma TreeMoves(names: map<nat, FileKey>, share: string, a: string, b: string, id: nat)
    requires id in names
    ensures var r := TreeRenamed(names, share, a, b);
            && r.Keys == names.Keys
            && (forall rest: string | names[id] == FileKey(share, a + "/" + rest) :: r[id] == FileKey(share, b + "/" + rest))
            && ((names[id].share != share || forall rest: string :: names[id].path != a + "/" + rest) ==> r[id] == names[id])
  {
    hide Beneath, Rebased;
    BeneathIs(names[id], share, a);
    forall rest: string | names[id] == FileKey(share, a + "/" + rest)
      ensures TreeRenamed(names, share, a, b)[id] == FileKey(share, b + "/" + rest)
    {
      KeepsTheRest(share, a, rest, b);
    }
  }

  /** Renaming a file leaves nobody under its old name, and renaming it back restores every name, if nobody had the new one. */
  lemma FileMoves(names: map<nat, FileKey>, key: FileKey, newName: string)
    requires newName != key.path
    ensures var r := FileRenamed(names, key, newName);
            && r.Keys == names.Keys && (forall id | id in names :: r[id] != key)
            && (forall id | id in names && r[id] != FileKey(key.share, newName) :: r[id] == names[id])
            && ((forall id | id in names :: names[id] != FileKey(key.share, newName)) ==>
                  FileRenamed(r, FileKey(key.share, newName), key.path) == names)
  {
  }

  /** Renaming a folder and back again restores every name, if nothing lay beneath the new name before. */
  lemma RenamedBack(names: map<nat, FileKey>, share: string, a: string, b: string)
    requires forall id | id in names :: !Beneath(names[id], share, b)
    ensures TreeRenamed(TreeRenamed(names, share, a, b), share, b, a) == names
  {
    hide Beneath, Rebased;
    var there := TreeRenamed(names, share, a, b);
    forall id | id in names
      ensures names[id] == TreeRenamed(there, share, b, a)[id]
    {
      BeneathIs(names[id], share, a);
      if Beneath(names[id], share, a) {
        var rest :| names[id].path == a + "/" + rest;
        KeepsTheRest(share, a, rest, b);
        KeepsTheRest(share, b, rest, a);
      }
    }
  }

  lemma SameShare(key: FileKey, share: string, folder: string)
    requires Beneath(key, share, folder)
    ensures key.share == share
  {
  }

  /** Everything beneath the folder under its new name, and nothing else touched. */
  ghost function TreeRenamed(names: map<nat, FileKey>, share: string, oldPath: string, newPath: string): map<nat, FileKey> {
    map id | id in names ::
      if Beneath(names[id], share, oldPath) then FileKey(share, Rebased(names[id].path, oldPath, newPath)) else names[id]
  }

  /** Every open of the file under its new name. */
  ghost function FileRenamed(names: map<nat, FileKey>, key: FileKey, newName: string): map<nat, FileKey> {
    map id | id in names :: if names[id] == key then FileKey(key.share, newName) else names[id]
  }

  datatype Event =
    | OpenFile(share: string, path: string)
    | CloseFile(id: nat)
    | RenameFile(share: string, path: string, newName: string)
    | RenameFolder(share: string, oldPath: string, newPath: string)

  /** Which opens there are after a run and under which names, told without an index. An open is numbered by the event
      that made it. */
  ghost function After(events: seq<Event>): map<nat, FileKey> {
    if events == [] then map[]
    else
      var n := |events| - 1;
      var names := After(events[..n]);
      match events[n]
      case OpenFile(share, path) => names[n := FileKey(share, path)]
      case CloseFile(id) => names - {id}
      case RenameFile(share, path, newName) => FileRenamed(names, FileKey(share, path), newName)
      case RenameFolder(share, oldPath, newPath) => TreeRenamed(names, share, oldPath, newPath)
  }

  method Step(index: Index, n: nat, e: Event)
    requires index.Valid() && n !in index.table
    modifies index, index.table.Values
    ensures index.Valid() && index.table.Keys <= old(index.table.Keys) + {n}
    ensures forall id | id in index.table :: id in old(index.table) || fresh(index.table[id])
    ensures forall id | id in index.table && id in old(index.table) :: index.table[id] == old(index.table[id])
    ensures NamesOf(index.table) ==
            var names := old(NamesOf(index.table));
            match e
            case OpenFile(share, path) => names[n := FileKey(share, path)]
            case CloseFile(id) => names - {id}
            case RenameFile(share, path, newName) => FileRenamed(names, FileKey(share, path), newName)
            case RenameFolder(share, oldPath, newPath) => TreeRenamed(names, share, oldPath, newPath)
  {
    hide Filed, TrimPath, Rebased, Beneath, FileRenamed, TreeRenamed;
    match e
    case OpenFile(share, path) =>
      var op := new Open(n, share, path);
      index.IndexOpen(op);
    case CloseFile(id) =>
      if id in index.table {
        index.UnindexOpen(index.table[id]);
      }
    case RenameFile(share, path, newName) =>
      var _ := index.MoveOpensOnFile(share, path, newName);
    case RenameFolder(share, oldPath, newPath) =>
      index.MoveOpensUnder(share, oldPath, newPath);
  }

  /** After any run the index knows every open under the name it has come to bear, and a look-up by name finds exactly
      the opens that bear it. */
  method Run(events: seq<Event>, share: string, path: string) returns (names: map<nat, FileKey>, found: set<nat>)
    ensures names == After(events)
    ensures found == set id | id in names && names[id] == FileKey(share, path)
  {
    hide Filed, TrimPath, FileRenamed, TreeRenamed;
    var index := new Index();
    for i := 0 to |events|
      invariant index.Valid() && fresh(index)
      invariant forall id | id in index.table :: id < i && fresh(index.table[id])
      invariant NamesOf(index.table) == After(events[..i])
    {
      assert events[..i + 1][..i] == events[..i];
      Step(index, i, events[i]);
    }
    assert events[..|events|] == events;
    names := map id | id in index.table :: index.table[id].Key();
    var opens := index.OpensOn(share, path, null);
    found := set o | o in opens :: o.id;
    assert forall id | id in names && names[id] == FileKey(share, path) :: index.table[id] in opens && index.table[id].id == id;
  }
}
