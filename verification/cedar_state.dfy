/**
 * The state both tries keep, as one value: the node table `array` (base and
 * check per node), the link table `infos` (first child and next sibling label
 * per node), the `blocks` table, the global `reject` table, the three block
 * list heads and the scalar fields.  Record buffers are columns here, one
 * sequence per record field; a buffer's `pos` always equals its record count.
 */
module CedarState {
  import opened Bits
  import opened Outcomes

  /** The three block lists: BLOCK_TYPE_CLOSED, BLOCK_TYPE_OPEN and BLOCK_TYPE_FULL. */
  datatype BlockType = Closed | Open | Full

  /** One value per block list: the heads `blocks_head_open/closed/full`, or a list's members. */
  datatype PerType<T> = PerType(open: T, closed: T, full: T)
  {
    /** get_head */
    function Get(t: BlockType): T
    {
      match t
      case Open => open
      case Closed => closed
      case Full => full
    }

    /** set_head */
    function With(t: BlockType, v: T): (r: PerType<T>)
      ensures r.Get(t) == v
      ensures forall u :: u != t ==> r.Get(u) == Get(u)
    {
      match t
      case Open => this.(open := v)
      case Closed => this.(closed := v)
      case Full => this.(full := v)
    }
  }

  /**
   * The `Blocks` buffer: per block of 256 slots its neighbours in its block
   * list, its number of free slots, the smallest number of children it failed
   * to place, its number of failed placement rounds and its first free slot.
   */
  datatype Blocks = Blocks(prev: seq<int>, next: seq<int>, num: seq<int>, reject: seq<int>, trial: seq<int>, head: seq<int>)
  {
    predicate Sized(n: int)
    {
      |prev| == n && |next| == n && |num| == n && |reject| == n && |trial| == n && |head| == n
    }
  }

  datatype State = State(
    base: seq<int>, check: seq<int>,
    sibling: seq<Byte>, child: seq<Byte>,
    blocks: Blocks,
    reject: seq<int>,
    heads: PerType<int>,
    maxTrial: int, capacity: int, size: int, ordered: bool)
  {
    /**
     * Table sizes agree with `capacity` (a multiple of 256 node slots, one
     * block record per 256 slots); `size` counts the slots of the blocks
     * handed out so far; the global reject table has an entry per possible
     * number of free slots, 0 to 256.
     */
    predicate Shape()
    {
      256 <= capacity && capacity % 256 == 0 &&
      |base| == capacity && |check| == capacity && |sibling| == capacity && |child| == capacity &&
      blocks.Sized(capacity / 256) && |reject| == 257 &&
      256 <= size <= capacity && size % 256 == 0
    }
  }

  /**
   * Where a node's value lives.  In the standard trie (`Cedar`) a key's value
   * is the base of a child reached by label 0 and a node stores its base as
   * is.  In the reduced trie (`ReducedCedar`) a leaf holds its value in its
   * own base (at least 0), and a node with children stores its base `b` as
   * `-b - 1`, which `base_r` reads back.
   */
  datatype Encoding = Standard | Reduced

  /** The largest value a reduced leaf holds; a fresh reduced node holds it as "no value yet". */
  const VALUE_LIMIT: int := 0x7FFF_FFFF - 1

  /** The base a node's children hang off, from what the node stores: `base`, or `base_r` in the reduced trie. */
  function BaseOf(enc: Encoding, stored: int): int
  {
    if enc == Standard then stored else -stored - 1
  }

  predicate In<T>(i: int, s: seq<T>)
  {
    0 <= i < |s|
  }

  /** The block a slot belongs to: Java's `e >> 8` (arithmetic shift, so floor division). */
  function BlockOf(e: int): int
  {
    e / 256
  }
}
