/** The queue control block (util/queue_r.c:40-121), one caller at a time. */
module QueueR {

  /** The index after i in a ring of n slots. */
  function Next(i: nat, n: nat): (r: nat)
    requires n > 0
    ensures i < n ==> r == if i + 1 == n then 0 else i + 1
  {
    ModAdd(i, 1, n);
    (i + 1) % n
  }

  // ----- remainders

  lemma ModOf(k: nat, n: nat, q: int, r: int)
    requires 0 < n && 0 <= r < n && k == q * n + r
    ensures k % n == r
  {
    var q' := k / n;
    assert k == q' * n + k % n;
    TimesMonotone(q' + 1, q, n);
    TimesMonotone(q + 1, q', n);
  }

  lemma TimesMonotone(a: int, b: int, n: nat)
    ensures a <= b ==> a * n <= b * n
  {
  }

  /** Adding at most n to a number adds as much to its remainder, less n when that is too much. */
  lemma ModAdd(k: nat, d: nat, n: nat)
    requires 0 < n && d <= n
    ensures (k + d) % n == if k % n + d < n then k % n + d else k % n + d - n
    ensures k < n ==> k % n == k
  {
    var q := k / n;
    assert k == q * n + k % n;
    if k % n + d < n {
      ModOf(k + d, n, q, k % n + d);
    } else {
      ModOf(k + d, n, q + 1, k % n + d - n);
    }
    if k < n {
      ModOf(k, n, 0, k);
    }
  }

  lemma NextMod(k: nat, n: nat)
    requires 0 < n
    ensures Next(k % n, n) == (k + 1) % n
  {
    ModAdd(k, 1, n);
  }

  lemma ModApart(i: nat, j: nat, n: nat)
    requires 0 < n && i < j < i + n
    ensures i % n != j % n
  {
    ModAdd(i, j - i, n);
  }

  class QueueCb {
    var b_size: nat
    var a_len: nat
    var m_write: nat
    var m_read: nat

    ghost predicate Valid()
      reads this
    {
      0 < b_size && 0 < a_len && m_write < a_len && m_read < a_len
    }

    /** The number of committed elements that have not been discarded. */
    ghost function Used(): (n: nat)
      requires Valid()
      reads this
      ensures n < a_len
    {
      if m_read <= m_write then m_write - m_read else m_write + a_len - m_read
    }

    constructor (block_size: nat, array_size: nat)
      requires 0 < block_size <= array_size
      ensures Valid() && Used() == 0 && b_size == block_size && a_len * b_size <= array_size < (a_len + 1) * b_size
    {
      b_size := block_size;
      a_len := array_size / block_size;
      m_read := 0;
      m_write := 0;
    }

    /** The byte index of the slot to fill, or -1 when one slot alone is free. */
    method Alloc() returns (index: int)
      requires Valid()
      ensures index == -1 <==> Used() == a_len - 1
      ensures index != -1 ==> index == m_write * b_size && 0 <= index <= a_len * b_size - b_size
    {
      var write := m_write;
      var next_element := Next(write, a_len);
      if next_element == m_read {
        return -1;
      }
      InBounds(write, a_len, b_size);
      return write * b_size;
    }

    method Commit()
      requires Valid()
      modifies `m_write
      ensures Valid() && Used() == if old(Used()) == a_len - 1 then 0 else old(Used()) + 1
    {
      var next_element := Next(m_write, a_len);
      m_write := next_element;
    }

    /** Whether there is an element, and then the byte index of the oldest one. */
    method Peek() returns (ok: bool, index: nat)
      requires Valid()
      ensures ok <==> Used() > 0
      ensures ok ==> index == m_read * b_size && index + b_size <= a_len * b_size
    {
      var read := m_read;
      if read == m_write {
        return false, 0;
      }
      InBounds(read, a_len, b_size);
      return true, read * b_size;
    }

    /** Drops the n oldest elements, or all of them when there are fewer. */
    method Discard(n: nat) returns (count: nat)
      requires Valid()
      modifies `m_read
      ensures Valid() && count == (if n < old(Used()) then n else old(Used())) && Used() == old(Used()) - count
    {
      count := 0;
      while count < n
        invariant Valid() && count <= n && Used() == old(Used()) - count
      {
        var read := m_read;
        if read == m_write {
          break;
        }
        m_read := Next(read, a_len);
        count := count + 1;
      }
    }

    method ClearFromPushEnd()
      requires Valid()
      modifies `m_write
      ensures Valid() && Used() == 0
    {
      m_write := m_read;
    }

    method ClearFromPopEnd()
      requires Valid()
      modifies `m_read
      ensures Valid() && Used() == 0
    {
      m_read := m_write;
    }

    method IsEmpty() returns (empty: bool)
      requires Valid()
      ensures empty <==> Used() == 0
    {
      return m_write == m_read;
    }

    method IsFull() returns (full: bool)
      requires Valid()
      ensures full <==> Used() == a_len - 1
    {
      return Next(m_write, a_len) == m_read;
    }
  }

  lemma InBounds(i: nat, n: nat, b: nat)
    requires i < n
    ensures i * b + b <= n * b
  {
    assert i * b + b == (i + 1) * b;
    assert (i + 1) * b <= n * b;
  }
}
