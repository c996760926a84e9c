/** What several modules share: optional values, the bounds of machine words, bytes, and sequences put together. */
module Prelude {

  datatype Option<+T> = None | Some(value: T)

  const TWO_32 := 0x1_0000_0000

  const TWO_64 := 0x1_0000_0000_0000_0000

  type Byte = x: int | 0 <= x < 256

  /** The parts one after the other. */
  function Concat<T>(parts: seq<seq<T>>): seq<T> {
    if parts == [] then [] else Concat(parts[..|parts| - 1]) + parts[|parts| - 1]
  }

  // ---------- Regrouping concatenations ----------

  lemma Regroup3<T>(a: seq<T>, b: seq<T>, c: seq<T>)
    ensures a + b + c == a + (b + c)
  {
  }

  lemma Regroup4<T>(a: seq<T>, b: seq<T>, c: seq<T>, d: seq<T>)
    ensures a + b + c + d == a + (b + c + d)
  {
  }

  lemma Regroup5<T>(a: seq<T>, b: seq<T>, c: seq<T>, d: seq<T>, e: seq<T>)
    ensures a + b + c + d + e == a + (b + c + d + e)
  {
  }

  lemma Regroup6<T>(a: seq<T>, b: seq<T>, c: seq<T>, d: seq<T>, e: seq<T>, f: seq<T>)
    ensures a + b + c + d + e + f == a + (b + c + d + e + f)
  {
  }

  lemma Nest5<T>(a: seq<T>, b: seq<T>, c: seq<T>, d: seq<T>, e: seq<T>)
    ensures a + b + c + d + e == a + (b + (c + (d + e)))
  {
  }

  lemma Nest7<T>(a: seq<T>, b: seq<T>, c: seq<T>, d: seq<T>, e: seq<T>, f: seq<T>, g: seq<T>)
    ensures a + (b + c + d) + e + f + g == a + (b + (c + (d + (e + (f + g)))))
  {
    assert (b + c + d) + (e + (f + g)) == b + (c + (d + (e + (f + g))));
    assert a + (b + c + d) + e + f + g == a + ((b + c + d) + (e + (f + g)));
  }
}
