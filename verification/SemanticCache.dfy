/** The content-addressed result cache: an index in memory, its saved copy, and
    result files named after content hashes. The disk is part of the state;
    whether an I/O operation succeeds is decided by the environment and passed
    in. A failed write leaves the old file. */
module SemanticCache {
  import opened Wrappers

  datatype CacheEntry = CacheEntry(filePath: string, contentHash: string, resultFilePath: string)

  type Index = map<string, CacheEntry>

  /** Result of a lookup: nothing cached, an error, or the stored bytes. */
  datatype Lookup<+D> = Miss | Failure | Hit(data: D)

  /** How reading the saved index can go. */
  datatype Load = Unreadable | Cancelled | Corrupt | Loaded

  datatype Store<C, D> = Store(
    sources: map<string, C>,
    results: map<string, D>,
    saved: Option<Index>,
    index: Index)

  function ResultFile(cacheDir: string, hash: string): string {
    cacheDir + "/" + hash + ".json"
  }

  /** Different hashes name different files. */
  lemma ResultFilesDistinct(cacheDir: string, h: string, k: string)
    requires ResultFile(cacheDir, h) == ResultFile(cacheDir, k)
    ensures h == k
  {
    var n := |cacheDir| + 1;
    assert h == ResultFile(cacheDir, h)[n..n + |h|];
    assert k == ResultFile(cacheDir, k)[n..n + |k|];
  }

  function SaveIndex<C, D>(s: Store<C, D>, saveOk: bool): Store<C, D> {
    if saveOk then s.(saved := Some(s.index)) else s
  }

  function InvalidateSpec<C, D>(s: Store<C, D>, key: string, removeOk: bool, saveOk: bool): Store<C, D> {
    var s' := if key !in s.index then s
              else s.(index := s.index - {key},
                      results := if removeOk then s.results - {s.index[key].resultFilePath} else s.results);
    SaveIndex(s', saveOk)
  }

  /** CacheResult with the bytes `data`; the flag says that it reported success. */
  function CacheSpec<C, D>(cacheDir: string, hash: C -> string, s: Store<C, D>, filePath: string, data: D,
                           cancelled: bool, writeOk: bool, saveOk: bool): (Store<C, D>, bool)
  {
    if filePath !in s.sources || cancelled || !writeOk then (s, false)
    else
      var h := hash(s.sources[filePath]);
      var resultFile := ResultFile(cacheDir, h);
      var s' := s.(results := s.results[resultFile := data],
                   index := s.index[filePath := CacheEntry(filePath, h, resultFile)]);
      (SaveIndex(s', saveOk), saveOk)
  }

  /** IsChanged: no entry, no file, or another hash than at caching time; nothing
      if there is a file and it cannot be read. */
  function IsChangedSpec<C, D>(hash: C -> string, s: Store<C, D>, filePath: string, hashOk: bool): Option<bool> {
    if filePath !in s.index || filePath !in s.sources then Some(true)
    else if !hashOk then None
    else Some(hash(s.sources[filePath]) != s.index[filePath].contentHash)
  }

  /** GetCachedResult; an unreadable result file drops the entry. */
  function GetSpec<C, D>(hash: C -> string, s: Store<C, D>, filePath: string, hashOk: bool, readOk: bool,
                         cancelled: bool,
                         removeOk: bool, saveOk: bool): (Store<C, D>, Lookup<D>)
  {
    var changed := IsChangedSpec(hash, s, filePath, hashOk);
    if filePath !in s.index || changed == Some(true) then (s, Miss)
    else if changed == None then (s, Failure)
    else
      var file := s.index[filePath].resultFilePath;
      if file !in s.results || !readOk then (InvalidateSpec(s, filePath, removeOk, saveOk), Failure)
      else if cancelled then (s, Failure)
      else (s, Hit(s.results[file]))
  }

  /** A new process: an empty index, replaced by the saved one if that loads. */
  function ReloadSpec<C, D>(s: Store<C, D>, load: Load): Store<C, D> {
    if s.saved.Some? && load.Loaded? then s.(index := s.saved.value) else s.(index := map[])
  }

  /** The cache object together with the files it works on. */
  class Cache<C(!new), D(!new)> {
    const cacheDir: string
    const hash: C -> string
    var sources: map<string, C>
    var results: map<string, D>
    var saved: Option<Index>
    var index: Index

    ghost function Snapshot(): Store<C, D>
      reads this
    {
      Store(sources, results, saved, index)
    }

    constructor (cacheDir: string, hash: C -> string, sources: map<string, C>)
      ensures this.cacheDir == cacheDir && this.hash == hash
      ensures Snapshot() == Store(sources, map[], None, map[])
    {
      this.cacheDir, this.hash, this.sources := cacheDir, hash, sources;
      results, saved, index := map[], None, map[];
    }

    method IsChanged(filePath: string, hashOk: bool) returns (changed: Option<bool>)
      ensures changed == IsChangedSpec(hash, Snapshot(), filePath, hashOk)
      ensures changed == None <==> filePath in index && filePath in sources && !hashOk
      ensures changed == Some(false) <==>
                && filePath in index && filePath in sources && hashOk
                && hash(sources[filePath]) == index[filePath].contentHash
    {
      if filePath !in index {
        return Some(true);
      }
      if filePath !in sources {
        return Some(true);
      }
      if !hashOk {
        return None;
      }
      var currentHash := hash(sources[filePath]);
      changed := Some(currentHash != index[filePath].contentHash);
    }

    method WriteIndex(saveOk: bool)
      modifies this`saved
      ensures Snapshot() == SaveIndex(old(Snapshot()), saveOk)
      ensures saved == if saveOk then Some(index) else old(saved)
    {
      if saveOk {
        saved := Some(index);
      }
    }

    method Invalidate(key: string, removeOk: bool, saveOk: bool)
      modifies this`index, this`results, this`saved
      ensures Snapshot() == InvalidateSpec(old(Snapshot()), key, removeOk, saveOk)
      ensures index == old(index) - {key}
      ensures results == if key in old(index) && removeOk then old(results) - {old(index)[key].resultFilePath}
                         else old(results)
      ensures saved == if saveOk then Some(index) else old(saved)
    {
      if key in index {
        var entry := index[key];
        index := index - {key};
        if removeOk {
          results := results - {entry.resultFilePath};
        }
      }
      WriteIndex(saveOk);
    }

    method CacheResult(filePath: string, data: D, cancelled: bool, writeOk: bool, saveOk: bool) returns (ok: bool)
      modifies this`index, this`results, this`saved
      ensures (Snapshot(), ok) == CacheSpec(cacheDir, hash, old(Snapshot()), filePath, data, cancelled, writeOk, saveOk)
      ensures ok <==> filePath in sources && !cancelled && writeOk && saveOk
      ensures if filePath in sources && !cancelled && writeOk then
                var h := hash(sources[filePath]);
                var file := cacheDir + "/" + h + ".json";
                && results == old(results)[file := data]
                && index == old(index)[filePath := CacheEntry(filePath, h, file)]
                && saved == (if saveOk then Some(index) else old(saved))
              else
                Snapshot() == old(Snapshot())
    {
      if filePath !in sources {
        return false;
      }
      var h := hash(sources[filePath]);
      var resultFile := ResultFile(cacheDir, h);
      if cancelled || !writeOk {
        return false;
      }
      results := results[resultFile := data];
      index := index[filePath := CacheEntry(filePath, h, resultFile)];
      WriteIndex(saveOk);
      ok := saveOk;
    }

    method GetCachedResult(filePath: string, hashOk: bool, readOk: bool, cancelled: bool, removeOk: bool, saveOk: bool)
      returns (result: Lookup<D>)
      modifies this`index, this`results, this`saved
      ensures (Snapshot(), result)
        == GetSpec(hash, old(Snapshot()), filePath, hashOk, readOk, cancelled, removeOk, saveOk)
      ensures filePath !in old(index) || filePath !in sources ==> result == Miss && Snapshot() == old(Snapshot())
      ensures filePath in old(index) && filePath in sources ==>
                var entry := old(index)[filePath];
                if !hashOk then result == Failure && Snapshot() == old(Snapshot())
                else if hash(sources[filePath]) != entry.contentHash then
                  result == Miss && Snapshot() == old(Snapshot())
                else if entry.resultFilePath !in old(results) || !readOk then
                  result == Failure && index == old(index) - {filePath}
                else
                  && Snapshot() == old(Snapshot())
                  && result == if cancelled then Failure else Hit(old(results)[entry.resultFilePath])
    {
      if filePath !in index {
        return Miss;
      }
      var entry := index[filePath];
      var changed := IsChanged(filePath, hashOk);
      if changed == None {
        return Failure;
      }
      if changed == Some(true) {
        return Miss;
      }
      if entry.resultFilePath !in results || !readOk {
        Invalidate(filePath, removeOk, saveOk);
        return Failure;
      }
      if cancelled {
        return Failure;
      }
      result := Hit(results[entry.resultFilePath]);
    }

    method LoadIndex(load: Load)
      modifies this`index
      ensures Snapshot() == ReloadSpec(old(Snapshot()), load)
      ensures index == if saved.Some? && load.Loaded? then saved.value else map[]
    {
      index := map[];
      if saved.Some? && load.Loaded? {
        index := saved.value;
      }
    }
  }
}
