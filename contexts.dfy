/**
 * Agglomeration sessions and the process-wide table that maps an integer
 * handle to its session.
 */
module Contexts {
  import opened Wrappers
  import opened UnmergeSpec

  /** One session. The backend objects it owns (region merging, scoring,
      statistics) are represented only by the size of the region graph. */
  class Context {
    const id: int
    /** Nodes of the region graph. */
    var numNodes: nat
    /** Largest region id handed to region-graph construction, as a `size_t`. */
    var maxId: nat
    /** The caller's labelling buffer, overwritten when segments are extracted. */
    var segmentation: array?<nat>
    /** The caller's ground-truth labelling, if one was given. */
    var groundtruth: Option<seq<nat>>
    /** The constraint families stored for later merge calls. */
    var unmergeList: UnmergeList

    constructor (id: int)
      ensures this.id == id
      ensures numNodes == 0 && maxId == 0 && segmentation == null && groundtruth.None? && unmergeList == []
    {
      this.id := id;
      numNodes, maxId, segmentation, groundtruth, unmergeList := 0, 0, null, None, [];
    }
  }

  /** The static session table and id counter. */
  class Registry {
    var contexts: map<int, Context>
    var nextId: int

    /** The counter starts at zero with no sessions. */
    constructor ()
      ensures contexts == map[] && nextId == 0
      ensures Valid()
    {
      contexts, nextId := map[], 0;
    }

    /** Every registered session is filed under its own id, below the counter. */
    ghost predicate Valid()
      reads this
    {
      forall id :: id in contexts ==> id < nextId && contexts[id].id == id
    }

    /** A new session takes the counter's value as its id; the counter moves
        on, so ids are never reused, and the table gains exactly that entry. */
    method CreateNew() returns (c: Context)
      requires Valid()
      modifies this
      ensures Valid() && fresh(c)
      ensures c.segmentation == null && c.groundtruth.None? && c.unmergeList == []
      ensures c.id == old(nextId) && nextId == old(nextId) + 1
      ensures c.id !in old(contexts)
      ensures contexts == old(contexts)[c.id := c]
      ensures Get(c.id) == c && forall x :: x != c.id ==> Get(x) == old(Get(x))
    {
      c := new Context(nextId);
      nextId := nextId + 1;
      // map insertion keeps an existing entry; the key is never present
      if c.id !in contexts {
        contexts := contexts[c.id := c];
      }
    }

    /** The registered session, or null for an unknown id. In a valid
        table a live session carries the id it was looked up by, and that id
        was handed out before. */
    function Get(id: int): (c: Context?)
      reads this
      ensures c != null <==> id in contexts
      ensures c != null ==> c == contexts[id]
      ensures Valid() && c != null ==> c.id == id && id < nextId
    {
      if id in contexts then contexts[id] else null
    }

    /** Removes only that session; an unknown id changes nothing. */
    method Free(id: int)
      requires Valid()
      modifies this
      ensures Valid() && nextId == old(nextId)
      ensures contexts == old(contexts) - {id}
      ensures id !in old(contexts) ==> contexts == old(contexts)
      ensures Get(id) == null && forall x :: x != id ==> Get(x) == old(Get(x))
    {
      var context := Get(id);
      if context != null {
        contexts := contexts - {id};
      }
    }
  }
}
