/** The predicate registry contract: a map from filenames to entries beside a list of the
    filenames, kept with `swap_remove`. */
module PredicateRegistry {
  import opened Basics

  datatype Entry = Entry(cid: Bytes, predicateBytes: Bytes)

  datatype RegistryError = FilenameAlreadyExists | FilenameNotFound

  datatype Registry = Registry(entries: map<Bytes, Entry>, filenames: seq<Bytes>)

  const EMPTY := Registry(map[], [])

  datatype Message = RegisterMessage(filename: Bytes, entry: Entry) | RemoveMessage(filename: Bytes)

  /** `Ok` carries the removed entry of a removal. */
  datatype Reply = Ok(removed: Option<Entry>) | Err(error: RegistryError)

  function Register(r: Registry, filename: Bytes, entry: Entry): (Registry, Reply) {
    if filename in r.entries then (r, Err(FilenameAlreadyExists))
    else (Registry(r.entries[filename := entry], r.filenames + [filename]), Ok(None))
  }

  function Position(s: seq<Bytes>, x: Bytes): (r: Option<nat>)
    ensures r.Some? ==> r.value < |s| && s[r.value] == x
    ensures r.None? ==> x !in s
  {
    if s == [] then None
    else if s[0] == x then Some(0)
    else
      var k :- Position(s[1..], x);
      Some(k + 1)
  }

  /** Puts the last element in the place of the one at i and shortens the list. */
  function SwapRemove(s: seq<Bytes>, i: nat): seq<Bytes>
    requires i < |s|
  {
    s[i := s[|s| - 1]][..|s| - 1]
  }

  function Remove(r: Registry, filename: Bytes): (Registry, Reply) {
    if filename !in r.entries then (r, Err(FilenameNotFound))
    else
      var k := Position(r.filenames, filename);
      (Registry(r.entries - {filename}, if k.Some? then SwapRemove(r.filenames, k.value) else r.filenames),
       Ok(Some(r.entries[filename])))
  }

  function Step(r: Registry, m: Message): (Registry, Reply) {
    match m
    case RegisterMessage(filename, entry) => Register(r, filename, entry)
    case RemoveMessage(filename) => Remove(r, filename)
  }

  function Read(r: Registry, filename: Bytes): Option<Entry> {
    if filename in r.entries then Some(r.entries[filename]) else None
  }

  /** The deployed contract. */
  class RegistryContract {
    var entries: map<Bytes, Entry>
    var filenames: seq<Bytes>

    ghost function Storage(): Registry
      reads this
    {
      Registry(entries, filenames)
    }

    constructor ()
      ensures Storage() == Registry(map[], [])
    {
      entries, filenames := map[], [];
    }

    method RegisterPredicate(filename: Bytes, cid: Bytes, predicateBytes: Bytes) returns (reply: Reply)
      modifies this
      ensures (Storage(), reply) == Register(old(Storage()), filename, Entry(cid, predicateBytes))
    {
      if filename in entries {
        return Err(FilenameAlreadyExists);
      }
      entries := entries[filename := Entry(cid, predicateBytes)];
      filenames := filenames + [filename];
      return Ok(None);
    }

    method ReadEntry(filename: Bytes) returns (r: Option<Entry>)
      ensures r == Read(Storage(), filename)
    {
      r := if filename in entries then Some(entries[filename]) else None;
    }

    method RemovePredicate(filename: Bytes) returns (reply: Reply)
      modifies this
      ensures (Storage(), reply) == Remove(old(Storage()), filename)
    {
      if filename !in entries {
        return Err(FilenameNotFound);
      }
      var entry := entries[filename];
      entries := entries - {filename};
      var k := Position(filenames, filename);
      if k.Some? {
        filenames := filenames[k.value := filenames[|filenames| - 1]];
        filenames := filenames[..|filenames| - 1];
      }
      return Ok(Some(entry));
    }
  }

  // ---- Any run refines a plain map ----

  /** The filename list enumerates the map's keys, each once. */
  ghost predicate Agrees(r: Registry) { NoDup(r.filenames) && Elements(r.filenames) == r.entries.Keys }

  function PlainStep(m: map<Bytes, Entry>, msg: Message): (map<Bytes, Entry>, Reply) {
    match msg
    case RegisterMessage(filename, entry) =>
      if filename in m then (m, Err(FilenameAlreadyExists)) else (m[filename := entry], Ok(None))
    case RemoveMessage(filename) =>
      if filename in m then (m - {filename}, Ok(Some(m[filename]))) else (m, Err(FilenameNotFound))
  }

  function Run(r: Registry, ms: seq<Message>): (Registry, seq<Reply>) {
    if ms == [] then (r, [])
    else
      var (q, replies) := Run(r, ms[..|ms| - 1]);
      var (next, reply) := Step(q, ms[|ms| - 1]);
      (next, replies + [reply])
  }

  function PlainRun(m: map<Bytes, Entry>, ms: seq<Message>): (map<Bytes, Entry>, seq<Reply>) {
    if ms == [] then (m, [])
    else
      var (q, replies) := PlainRun(m, ms[..|ms| - 1]);
      var (next, reply) := PlainStep(q, ms[|ms| - 1]);
      (next, replies + [reply])
  }

  /** The last element takes the place of the one that goes; the others stay where they are. */
  lemma SwapRemoveElements(s: seq<Bytes>, i: nat)
    requires i < |s| && NoDup(s)
    ensures |SwapRemove(s, i)| == |s| - 1
    ensures forall k | 0 <= k < |s| - 1 :: SwapRemove(s, i)[k] == if k == i then s[|s| - 1] else s[k]
    ensures NoDup(SwapRemove(s, i)) && Elements(SwapRemove(s, i)) == Elements(s) - {s[i]}
  {
    var t := SwapRemove(s, i);
    var n := |s| - 1;
    assert forall k | 0 <= k < n :: t[k] == if k == i then s[n] else s[k];
    forall x | x in s && x != s[i] ensures x in t {
      var k :| 0 <= k < |s| && s[k] == x;
      assert if k == n then t[i] == x else t[k] == x;
    }
  }

  lemma StepAgrees(r: Registry, m: Message)
    requires Agrees(r)
    ensures Agrees(Step(r, m).0)
  {
    match m
    case RegisterMessage(filename, entry) =>
      assert filename in r.filenames <==> filename in Elements(r.filenames);
      assert Elements(r.filenames + [filename]) == Elements(r.filenames) + {filename};
    case RemoveMessage(filename) =>
      if filename in r.entries {
        assert filename in Elements(r.filenames);
        SwapRemoveElements(r.filenames, Position(r.filenames, filename).value);
      }
  }

  /** After any messages, every reply and the entries are those of a plain map, and the
      filename list is a repeat-free enumeration of its keys. */
  lemma {:induction false} RefinesMap(ms: seq<Message>)
    ensures var (r, replies) := Run(EMPTY, ms);
            (r.entries, replies) == PlainRun(map[], ms) && Agrees(r)
  {
    if ms != [] {
      RefinesMap(ms[..|ms| - 1]);
      StepAgrees(Run(EMPTY, ms[..|ms| - 1]).0, ms[|ms| - 1]);
    }
  }

  /** Removing what was just registered undoes the registration, list order included. */
  lemma RemoveUndoesRegister(r: Registry, filename: Bytes, entry: Entry)
    requires Agrees(r) && filename !in r.entries
    ensures Remove(Register(r, filename, entry).0, filename) == (r, Ok(Some(entry)))
  {
    var q := Register(r, filename, entry).0;
    assert filename !in r.filenames by { assert filename !in Elements(r.filenames); }
    var k := Position(q.filenames, filename).value;
    assert k == |r.filenames|;
    assert SwapRemove(q.filenames, k) == r.filenames;
    assert q.entries - {filename} == r.entries;
  }

  // ---- What is read ----

  lemma {:induction false} RepliesCount(ms: seq<Message>)
    ensures |Run(EMPTY, ms).1| == |ms|
  {
    if ms != [] { RepliesCount(ms[..|ms| - 1]); }
  }

  /** Message k was accepted, and is about this filename. */
  ghost predicate Touches(ms: seq<Message>, k: nat, filename: Bytes) {
    k < |ms| == |Run(EMPTY, ms).1| && ms[k].filename == filename && Run(EMPTY, ms).1[k].Ok?
  }

  /** Message k registered this entry, and no later message about the filename was accepted. */
  ghost predicate LastRegistered(ms: seq<Message>, k: nat, filename: Bytes, entry: Entry) {
    Touches(ms, k, filename) && ms[k] == RegisterMessage(filename, entry) && forall j: nat | k < j ::
        !Touches(ms, j, filename)
  }

  lemma TouchesBefore(ms: seq<Message>, k: nat, filename: Bytes)
    requires ms != []
    ensures Touches(ms, k, filename) <==>
            Touches(ms[..|ms| - 1], k, filename)
            || (k == |ms| - 1 && ms[k].filename == filename && Step(Run(EMPTY, ms[..k]).0, ms[k]).1.Ok?)
  {
    RepliesCount(ms);
    RepliesCount(ms[..|ms| - 1]);
  }

  /** After any messages, reading a filename gives an entry exactly when the last accepted
      message about that filename registered that entry. */
  lemma {:induction false} ReadIsLastRegistered(ms: seq<Message>, filename: Bytes, entry: Entry)
    ensures Read(Run(EMPTY, ms).0, filename) == Some(entry) <==> exists k: nat :: LastRegistered(ms, k, filename, entry)
  {
    if ms != [] {
      var n := |ms| - 1;
      var before, r := ms[..n], Run(EMPTY, ms[..n]).0;
      ReadIsLastRegistered(before, filename, entry);
      forall k: nat ensures Touches(ms, k, filename) <==>
                              Touches(before, k, filename) ||
                                  (k == n && ms[n].filename == filename && Step(r, ms[n]).1.Ok?)
      {
        TouchesBefore(ms, k, filename);
      }
      if ms[n].filename == filename && Step(r, ms[n]).1.Ok? {
        assert Touches(ms, n, filename);
        if ms[n] == RegisterMessage(filename, entry) {
          assert LastRegistered(ms, n, filename, entry);
        }
      } else {
        LastBefore(ms, before, filename, entry);
      }
    }
  }

  lemma LastBefore(ms: seq<Message>, before: seq<Message>, filename: Bytes, entry: Entry)
    requires ms != [] && before == ms[..|ms| - 1]
    requires forall k: nat :: Touches(ms, k, filename) <==> Touches(before, k, filename)
    ensures (exists k: nat :: LastRegistered(ms, k, filename, entry)) <==>
        exists k: nat :: LastRegistered(before, k, filename, entry)
  {
    if k: nat :| LastRegistered(ms, k, filename, entry) {
      assert Touches(before, k, filename) && before[k] == ms[k];
      assert LastRegistered(before, k, filename, entry);
    }
    if k: nat :| LastRegistered(before, k, filename, entry) {
      assert Touches(ms, k, filename) && before[k] == ms[k];
      assert LastRegistered(ms, k, filename, entry);
    }
  }
}
