/** The cache that may answer for the directory walk within one session. */
module WalkCache {
  import opened Wrappers
  import opened PathWalk

  datatype Key = Key(root: string, mindepth: nat, maxdepth: Option<nat>)

  /** What an uncached walk returns for each key at some moment. */
  type Walker = Key -> seq<Path>

  /** The walker of a file system: the tree found under each search root. */
  function WalkerOf(tree: string -> Dir): Walker {
    (key: Key) => SortedWalk(tree(key.root), key.mindepth, key.maxdepth)
  }

  class PathCache {
    var entries: map<Key, seq<Path>>

    constructor ()
      ensures entries == map[]
    {
      entries := map[];
    }

    /** Walks on the first request for a key and answers from the cache afterwards. */
    method CachedWalkPaths(walk: Walker, key: Key) returns (paths: seq<Path>)
      modifies this
      ensures paths == if key in old(entries) then old(entries)[key] else walk(key)
      ensures entries == old(entries)[key := paths]
    {
      if key in entries {
        paths := entries[key];
        assert entries == entries[key := paths];
      } else {
        paths := walk(key);
        entries := entries[key := paths];
      }
    }
  }

  datatype Command = Command(walk: Walker, key: Key)

  /** The cache after the first `n` commands of a session that started with an empty one. */
  ghost function CacheAfter(commands: seq<Command>, n: nat): map<Key, seq<Path>>
    requires n <= |commands|
  {
    if n == 0 then map[]
    else
      var before, c := CacheAfter(commands, n - 1), commands[n - 1];
      before[c.key := if c.key in before then before[c.key] else c.walk(c.key)]
  }

  /** What the session answers to command `i`. */
  ghost function Answer(commands: seq<Command>, i: nat): seq<Path>
    requires i < |commands|
  {
    CacheAfter(commands, i + 1)[commands[i].key]
  }

  lemma {:induction false} CachedKeys(commands: seq<Command>, n: nat, key: Key)
    requires n <= |commands|
    ensures key in CacheAfter(commands, n) <==> exists i :: 0 <= i < n && commands[i].key == key
  {
    if n > 0 {
      CachedKeys(commands, n - 1, key);
    }
  }

  /** The cache answers with the walk at the first command for a key, however often the key is asked for. */
  lemma {:induction false} FirstWalkIsKept(commands: seq<Command>, n: nat, k: nat)
    requires k < n <= |commands|
    requires forall l :: 0 <= l < k ==> commands[l].key != commands[k].key
    ensures commands[k].key in CacheAfter(commands, n)
    ensures CacheAfter(commands, n)[commands[k].key] == commands[k].walk(commands[k].key)
  {
    if n - 1 == k {
      CachedKeys(commands, k, commands[k].key);
    } else {
      FirstWalkIsKept(commands, n - 1, k);
    }
  }

  /** Transparency: while nothing on disk changes, every cached answer is the uncached one. */
  lemma {:induction false} CacheIsTransparent(commands: seq<Command>, n: nat, walk: Walker)
    requires n <= |commands|
    requires forall i :: 0 <= i < n ==> commands[i].walk == walk
    ensures forall key :: key in CacheAfter(commands, n) ==> CacheAfter(commands, n)[key] == walk(key)
  {
    if n > 0 {
      CacheIsTransparent(commands, n - 1, walk);
    }
  }

  /** A run of commands sharing one fresh cache. */
  method RunCommands(commands: seq<Command>) returns (results: seq<seq<Path>>)
    ensures |results| == |commands|
    ensures forall i :: 0 <= i < |commands| ==> results[i] == Answer(commands, i)
  {
    var cache := new PathCache();
    results := [];
    for n := 0 to |commands|
      invariant cache.entries == CacheAfter(commands, n)
      invariant |results| == n
      invariant forall i :: 0 <= i < n ==> results[i] == Answer(commands, i)
    {
      var paths := cache.CachedWalkPaths(commands[n].walk, commands[n].key);
      assert cache.entries == CacheAfter(commands, n + 1);
      results := results + [paths];
    }
  }

  lemma {:induction false} WalkOnTree(tree: string -> Dir, key: Key)
    ensures WalkerOf(tree)(key) == SortedWalk(tree(key.root), key.mindepth, key.maxdepth)
  {
    hide SortedWalk;
  }

  lemma {:induction false} AnswerOnTree(tree: string -> Dir, commands: seq<Command>, i: nat)
    requires i < |commands| && forall j :: 0 <= j < |commands| ==> commands[j].walk == WalkerOf(tree)
    ensures Answer(commands, i) == WalkerOf(tree)(commands[i].key)
  {
    hide WalkerOf;
    CacheIsTransparent(commands, i + 1, WalkerOf(tree));
  }

  /** With one unchanged directory tree, a session with a cache returns what the walks themselves return. */
  method RunOnUnchangedTree(tree: string -> Dir, keys: seq<Key>) returns (results: seq<seq<Path>>)
    ensures |results| == |keys|
    ensures forall i :: 0 <= i < |keys| ==>
              results[i] == SortedWalk(tree(keys[i].root), keys[i].mindepth, keys[i].maxdepth)
  {
    var commands := seq(|keys|, i requires 0 <= i < |keys| => Command(WalkerOf(tree), keys[i]));
    results := RunCommands(commands);
    hide SortedWalk, WalkerOf, Answer;
    forall i | 0 <= i < |keys|
      ensures results[i] == SortedWalk(tree(keys[i].root), keys[i].mindepth, keys[i].maxdepth)
    {
      AnswerOnTree(tree, commands, i);
      WalkOnTree(tree, keys[i]);
    }
  }
}
