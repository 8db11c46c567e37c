/**
 * The owning descriptor wrapper (file_descriptor.hpp/.cpp): a wrapper holds
 * an int, -1 meaning "owns nothing"; moving transfers ownership and the
 * destructor closes what is still owned. Every operation returns the
 * wrapper(s) afterwards together with the raw descriptors it passed to
 * `::close`, in call order.
 */
module FileDescriptor {

  const INVALID: int := -1

  datatype Fd = Fd(raw: int)

  /** `valid()`: any non-negative value is owned. */
  predicate Valid(f: Fd)
  {
    f.raw >= 0
  }

  /** The default constructor owns nothing. */
  function Default(): (f: Fd)
    ensures !Valid(f) && f.raw == INVALID
  {
    Fd(INVALID)
  }

  /** The converting constructor adopts whatever `open` or `timerfd_create`
      returned, including a negative error value. */
  function FromRaw(raw: int): (f: Fd)
    ensures f.raw == raw
    ensures Valid(f) <==> raw >= 0
  {
    Fd(raw)
  }

  /** The move constructor: the new wrapper takes the descriptor and the
      source is left owning nothing. */
  function MoveConstruct(other: Fd): (r: (Fd, Fd))
    ensures r.0.raw == other.raw
    ensures !Valid(r.1)
  {
    (Fd(other.raw), Fd(INVALID))
  }

  /** `close()`: calls `::close` unconditionally, even on -1, and forgets
      the descriptor. */
  function Close(f: Fd): (r: (Fd, seq<int>))
    ensures !Valid(r.0)
    ensures r.1 == [f.raw]
  {
    (Fd(INVALID), [f.raw])
  }

  /** Move assignment `self = std::move(other)` for two distinct wrappers:
      the target's own descriptor is closed if valid, then the two values are
      swapped, so the source ends up owning nothing. */
  function MoveAssign(self: Fd, other: Fd): (r: (Fd, Fd, seq<int>))
    ensures r.0.raw == other.raw
    ensures !Valid(r.1)
    ensures Valid(self) ==> r.2 == [self.raw]
    ensures !Valid(self) ==> r.2 == [] && r.1 == self
  {
    if Valid(self) then
      var (closed, calls) := Close(self);
      (other, closed, calls)
    else (other, self, [])
  }

  /** Move assignment of a wrapper to itself: the descriptor is closed and
      the swap with itself leaves the wrapper owning nothing. */
  function SelfMoveAssign(self: Fd): (r: (Fd, seq<int>))
    ensures !Valid(r.0)
    ensures Valid(self) <==> |r.1| == 1
    ensures Valid(self) ==> r.1 == [self.raw]
  {
    if Valid(self) then Close(self) else (self, [])
  }

  /** The destructor closes only an owned descriptor. */
  function Destroy(f: Fd): (calls: seq<int>)
    ensures Valid(f) <==> calls == [f.raw]
    ensures !Valid(f) <==> calls == []
  {
    if Valid(f) then [f.raw] else []
  }

  // ---------------------------------------------------------------------
  // Properties

  /** Moving a descriptor into a fresh wrapper and destroying both closes it
      exactly once. */
  lemma MoveThenDestroyClosesOnce(raw: int)
    requires raw >= 0
    ensures var (a, b) := MoveConstruct(FromRaw(raw));
      Destroy(a) + Destroy(b) == [raw]
  {
  }

  /** Assigning an owned descriptor over an owned one, then destroying both
      wrappers, closes each descriptor exactly once: the overwritten one at the
      assignment and the moved one at destruction. */
  lemma MoveAssignThenDestroyClosesEachOnce(x: int, y: int)
    requires x >= 0 && y >= 0
    ensures var (self, other, calls) := MoveAssign(FromRaw(x), FromRaw(y));
      calls + Destroy(self) + Destroy(other) == [x, y]
  {
  }

  /** A wrapper closed explicitly is not closed again by its destructor. */
  lemma CloseThenDestroy(f: Fd)
    ensures var (g, calls) := Close(f);
      calls + Destroy(g) == [f.raw]
  {
  }
}
