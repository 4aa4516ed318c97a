/**
 * The diagnostic-source registry of services/src/diagnostics.cpp: a service object that
 * keeps the registered sources sorted by their 16-bit id, accepts registrations only
 * while it is disabled and answers lookups and enumerations only once it is enabled.
 */
module DiagnosticsService {

  import opened CTypes

  /**
   * A registered diag_source. The registry looks only at `id`; `ref` stands for the
   * identity of the object the registered pointer refers to (its name, type and
   * callback are opaque to the registry).
   */
  datatype Source = Source(id: uint16, ref: nat)

  /** The system_error.h codes the registry returns (SYSTEM_ERROR_NONE is Success). */
  datatype SystemError = Success | InvalidState | AlreadyExists | NoMemory | NotFound | NotSupported

  /**
   * The `cmd` argument of command(): the two command codes diagnostics.h defines,
   * or any other integer.
   */
  datatype Command = Reset | Enable | Other(code: int)

  /** The platform on which DIAG_CMD_RESET is compiled in (`#if PLATFORM_ID == 3`). */
  const RESET_PLATFORM_ID: int := 3

  /** Any split point of a list into ids below `id` and ids at or above it is the lower bound. */
  lemma {:induction false} LowerBoundUnique(s: seq<Source>, id: uint16, k: nat)
    requires k <= |s|
    requires forall i :: 0 <= i < k ==> s[i].id < id
    requires forall i :: k <= i < |s| ==> s[i].id >= id
    ensures k == LowerBound(s, id)
  {
    if s != [] && s[0].id < id {
      LowerBoundUnique(s[1..], id, k - 1);
    }
  }

  /** Ids strictly ascend along the list, hence are unique. */
  predicate StrictlyAscending(s: seq<Source>)
  {
    forall i, j :: 0 <= i < j < |s| ==> s[i].id < s[j].id
  }

  /** Some entry carries this id. */
  predicate HasId(s: seq<Source>, id: uint16)
  {
    exists i :: 0 <= i < |s| && s[i].id == id
  }

  /** `s` with `x` inserted before position `k` (Vector::insert). */
  function Insert(s: seq<Source>, k: nat, x: Source): (t: seq<Source>)
    requires k <= |s|
  {
    s[..k] + [x] + s[k..]
  }

  /**
   * std::lower_bound with the comparison `src->id < id`: the length of the longest
   * prefix whose ids are all below `id`.
   */
  function LowerBound(s: seq<Source>, id: uint16): (k: nat)
    ensures k <= |s|
    ensures forall i :: 0 <= i < k ==> s[i].id < id
    ensures k < |s| ==> s[k].id >= id
  {
    if s == [] || s[0].id >= id then 0 else 1 + LowerBound(s[1..], id)
  }

  /** On a sorted list the lower bound splits the ids into those below and those at or above `id`. */
  lemma LowerBoundPartitions(s: seq<Source>, id: uint16)
    requires StrictlyAscending(s)
    ensures forall i :: 0 <= i < LowerBound(s, id) ==> s[i].id < id
    ensures forall i :: LowerBound(s, id) <= i < |s| ==> s[i].id >= id
  {
    var k := LowerBound(s, id);
    forall i | k <= i < |s|
      ensures s[i].id >= id
    {
      if i > k {
        assert s[k].id < s[i].id;
      }
    }
  }

  /**
   * On a sorted list the id is present exactly when the entry at the lower bound
   * carries it: the duplicate test of registerSource and the lookup of getSource.
   */
  lemma LowerBoundFindsId(s: seq<Source>, id: uint16)
    requires StrictlyAscending(s)
    ensures HasId(s, id) <==> LowerBound(s, id) < |s| && s[LowerBound(s, id)].id == id
  {
    var k := LowerBound(s, id);
    if HasId(s, id) {
      var i :| 0 <= i < |s| && s[i].id == id;
      LowerBoundPartitions(s, id);
      assert k <= i;
      assert s[k].id <= s[i].id;
    }
  }

  /** Vector::insert: one more entry, `x` at `k`, the old entries around it in their order. */
  lemma InsertShape(s: seq<Source>, k: nat, x: Source)
    requires k <= |s|
    ensures |Insert(s, k, x)| == |s| + 1
    ensures Insert(s, k, x)[k] == x
    ensures Insert(s, k, x)[..k] + Insert(s, k, x)[k + 1..] == s
    ensures forall i :: 0 <= i < k ==> Insert(s, k, x)[i] == s[i]
    ensures forall i :: k < i <= |s| ==> Insert(s, k, x)[i] == s[i - 1]
  {
    var t := Insert(s, k, x);
    assert t[..k] == s[..k];
    assert t[k + 1..] == s[k..];
  }

  /** Inserting between the smaller and the larger ids keeps a list strictly ascending. */
  lemma InsertKeepsAscending(s: seq<Source>, k: nat, x: Source)
    requires k <= |s|
    requires StrictlyAscending(s)
    requires forall i :: 0 <= i < k ==> s[i].id < x.id
    requires forall i :: k <= i < |s| ==> s[i].id > x.id
    ensures StrictlyAscending(Insert(s, k, x))
  {
    var t := Insert(s, k, x);
    InsertShape(s, k, x);
    forall i, j | 0 <= i < j < |t|
      ensures t[i].id < t[j].id
    {
      if j < k {
        assert t[i] == s[i] && t[j] == s[j];
      } else if j == k {
        assert t[i] == s[i];
      } else if i < k {
        assert t[i] == s[i] && t[j] == s[j - 1];
      } else if i == k {
        assert t[j] == s[j - 1];
      } else {
        assert t[i] == s[i - 1] && t[j] == s[j - 1];
      }
    }
  }

  /**
   * A successful registration: the list grows by one, the new source sits at the
   * lower-bound index, the old entries keep their relative order and the ids stay
   * strictly ascending.
   */
  lemma InsertAtLowerBound(s: seq<Source>, x: Source)
    requires StrictlyAscending(s)
    requires !HasId(s, x.id)
    ensures |Insert(s, LowerBound(s, x.id), x)| == |s| + 1
    ensures Insert(s, LowerBound(s, x.id), x)[LowerBound(s, x.id)] == x
    ensures Insert(s, LowerBound(s, x.id), x)[..LowerBound(s, x.id)]
              + Insert(s, LowerBound(s, x.id), x)[LowerBound(s, x.id) + 1..] == s
    ensures StrictlyAscending(Insert(s, LowerBound(s, x.id), x))
    ensures HasId(Insert(s, LowerBound(s, x.id), x), x.id)
  {
    var k := LowerBound(s, x.id);
    InsertShape(s, k, x);
    LowerBoundPartitions(s, x.id);
    forall i | k <= i < |s|
      ensures s[i].id > x.id
    {
      assert s[i].id != x.id;
    }
    InsertKeepsAscending(s, k, x);
  }

  /** In a strictly ascending list every entry occurs exactly once. */
  lemma {:induction false} AscendingOccursOnce(s: seq<Source>)
    requires StrictlyAscending(s)
    ensures forall x :: multiset(s)[x] == (if x in s then 1 else 0)
  {
    if s != [] {
      var t := s[1..];
      assert StrictlyAscending(t);
      AscendingOccursOnce(t);
      assert s == [s[0]] + t;
      assert forall j :: 0 <= j < |t| ==> t[j].id > s[0].id;
      assert s[0] !in t;
      forall x
        ensures multiset(s)[x] == (if x in s then 1 else 0)
      {
        assert multiset(s) == multiset{s[0]} + multiset(t);
      }
    }
  }

  class Diagnostics {
    /** srcs_: the registered sources, kept sorted by id. */
    var srcs: seq<Source>
    /** enabled_: registration is open while false, lookups are served while true. */
    var enabled: bool
    /** The PLATFORM_ID the service is built for. */
    const platformId: int

    /** The registry's invariant: ids strictly ascend. */
    ghost predicate Valid()
      reads this
    {
      StrictlyAscending(srcs)
    }

    /** A new registry is disabled and holds no sources (the reserve(32) is capacity only). */
    constructor (platformId: int)
      ensures Valid()
      ensures !enabled && srcs == []
      ensures this.platformId == platformId
    {
      srcs := [];
      enabled := false;
      this.platformId := platformId;
    }

    /** indexForId: binary search for the lower bound of `id`. */
    method IndexForId(id: uint16) returns (index: nat)
      requires Valid()
      ensures index == LowerBound(srcs, id)
      ensures forall i :: 0 <= i < index ==> srcs[i].id < id
      ensures forall i :: index <= i < |srcs| ==> srcs[i].id >= id
    {
      var lo, hi := 0, |srcs|;
      while lo < hi
        invariant 0 <= lo <= hi <= |srcs|
        invariant forall i :: 0 <= i < lo ==> srcs[i].id < id
        invariant forall i :: hi <= i < |srcs| ==> srcs[i].id >= id
      {
        var mid := (lo + hi) / 2;
        if srcs[mid].id < id {
          lo := mid + 1;
        } else {
          hi := mid;
        }
      }
      index := lo;
      LowerBoundUnique(srcs, id, index);
    }

    /**
     * registerSource. `insertFails` stands for Vector::insert failing to allocate.
     */
    method RegisterSource(src: Source, insertFails: bool) returns (r: SystemError)
      requires Valid()
      modifies this
      ensures Valid()
      ensures enabled == old(enabled)
      ensures old(enabled) ==> r == InvalidState
      ensures !old(enabled) && HasId(old(srcs), src.id) ==> r == AlreadyExists
      ensures !old(enabled) && !HasId(old(srcs), src.id) ==> r == (if insertFails then NoMemory else Success)
      ensures r != Success ==> srcs == old(srcs)
      ensures r == Success ==> srcs == Insert(old(srcs), LowerBound(old(srcs), src.id), src)
    {
      if enabled {
        return InvalidState;
      }
      var index := IndexForId(src.id);
      LowerBoundFindsId(srcs, src.id);
      if index < |srcs| && srcs[index].id == src.id {
        return AlreadyExists;
      }
      if insertFails {
        return NoMemory;
      }
      InsertAtLowerBound(srcs, src);
      srcs := Insert(srcs, index, src);
      r := Success;
    }

    /**
     * enumSources. `hasCallback` and `hasCount` say whether the callback and the count
     * pointer are non-null; `visited` is the sequence of sources passed to the callback
     * and `count` what was stored through the count pointer.
     */
    method EnumSources(hasCallback: bool, hasCount: bool) returns (r: SystemError, visited: seq<Source>, count: Option<nat>)
      requires Valid()
      ensures r == (if enabled then Success else InvalidState)
      ensures visited == (if enabled && hasCallback then srcs else [])
      ensures count == (if enabled && hasCount then Some(|srcs|) else None)
      ensures StrictlyAscending(visited)
      ensures enabled && hasCallback ==> forall x :: multiset(visited)[x] == (if x in srcs then 1 else 0)
    {
      visited, count := [], None;
      if !enabled {
        return InvalidState, visited, count;
      }
      if hasCallback {
        for i := 0 to |srcs|
          invariant visited == srcs[..i]
        {
          visited := visited + [srcs[i]];
        }
        assert visited == srcs;
        AscendingOccursOnce(srcs);
      }
      if hasCount {
        count := Some(|srcs|);
      }
      r := Success;
    }

    /**
     * getSource. `wantSource` says whether the out-pointer is non-null; `src` is what
     * was stored through it.
     */
    method GetSource(id: uint16, wantSource: bool) returns (r: SystemError, src: Option<Source>)
      requires Valid()
      ensures !enabled ==> r == InvalidState
      ensures enabled ==> r == (if HasId(srcs, id) then Success else NotFound)
      ensures src.Some? <==> r == Success && wantSource
      ensures src.Some? ==> src.value in srcs && src.value.id == id
    {
      src := None;
      if !enabled {
        return InvalidState, src;
      }
      var index := IndexForId(id);
      LowerBoundFindsId(srcs, id);
      if index >= |srcs| || srcs[index].id != id {
        return NotFound, src;
      }
      if wantSource {
        src := Some(srcs[index]);
      }
      r := Success;
    }

    /** command: ENABLE on every platform, RESET only on platform 3. */
    method Command(cmd: Command) returns (r: SystemError)
      requires Valid()
      modifies this
      ensures Valid()
      ensures cmd == Enable ==> r == Success && enabled && srcs == old(srcs)
      ensures cmd == Reset && platformId == RESET_PLATFORM_ID ==> r == Success && !enabled && srcs == []
      ensures cmd.Other? || (cmd == Reset && platformId != RESET_PLATFORM_ID) ==>
                r == NotSupported && enabled == old(enabled) && srcs == old(srcs)
    {
      match cmd
      case Reset =>
        if platformId == RESET_PLATFORM_ID {
          srcs := [];
          enabled := false;
          r := Success;
        } else {
          r := NotSupported;
        }
      case Enable =>
        enabled := true;
        r := Success;
      case Other(_) =>
        r := NotSupported;
    }
  }

  /** diag_register_source: forwards to the global registry `g`. */
  method DiagRegisterSource(g: Diagnostics, src: Source, insertFails: bool) returns (r: SystemError)
    requires g.Valid()
    modifies g
    ensures g.Valid() && g.enabled == old(g.enabled)
    ensures old(g.enabled) ==> r == InvalidState
    ensures !old(g.enabled) && HasId(old(g.srcs), src.id) ==> r == AlreadyExists
    ensures !old(g.enabled) && !HasId(old(g.srcs), src.id) ==> r == (if insertFails then NoMemory else Success)
    ensures r != Success ==> g.srcs == old(g.srcs)
    ensures r == Success ==> g.srcs == Insert(old(g.srcs), LowerBound(old(g.srcs), src.id), src)
  {
    r := g.RegisterSource(src, insertFails);
  }

  /** diag_enum_sources: forwards to the global registry `g`. */
  method DiagEnumSources(g: Diagnostics, hasCallback: bool, hasCount: bool) returns (r: SystemError, visited: seq<Source>, count: Option<nat>)
    requires g.Valid()
    ensures r == (if g.enabled then Success else InvalidState)
    ensures visited == (if g.enabled && hasCallback then g.srcs else [])
    ensures count == (if g.enabled && hasCount then Some(|g.srcs|) else None)
  {
    r, visited, count := g.EnumSources(hasCallback, hasCount);
  }

  /** diag_get_source: forwards to the global registry `g`. */
  method DiagGetSource(g: Diagnostics, id: uint16, wantSource: bool) returns (r: SystemError, src: Option<Source>)
    requires g.Valid()
    ensures !g.enabled ==> r == InvalidState
    ensures g.enabled ==> r == (if HasId(g.srcs, id) then Success else NotFound)
    ensures src.Some? <==> r == Success && wantSource
    ensures src.Some? ==> src.value in g.srcs && src.value.id == id
  {
    r, src := g.GetSource(id, wantSource);
  }

  /** diag_service_cmd: forwards to the global registry `g`. */
  method DiagServiceCmd(g: Diagnostics, cmd: Command) returns (r: SystemError)
    requires g.Valid()
    modifies g
    ensures g.Valid()
    ensures cmd == Enable ==> r == Success && g.enabled && g.srcs == old(g.srcs)
    ensures cmd == Reset && g.platformId == RESET_PLATFORM_ID ==> r == Success && !g.enabled && g.srcs == []
    ensures cmd.Other? || (cmd == Reset && g.platformId != RESET_PLATFORM_ID) ==>
              r == NotSupported && g.enabled == old(g.enabled) && g.srcs == old(g.srcs)
  {
    r := g.Command(cmd);
  }
}
