/** The containers of the root library that the passes write into. */
module Root {

  lemma Append2<T>(b: seq<T>, s: seq<T>, t: seq<T>)
    ensures b + s + t == b + (s + t)
  {
  }

  lemma Append3<T>(b: seq<T>, s: seq<T>, t: seq<T>, u: seq<T>)
    ensures b + s + t + u == b + (s + t + u)
  {
    Append2(b, s, t);
    Append2(b, s + t, u);
  }

  lemma Append5<T>(b: seq<T>, s: seq<T>, t: seq<T>, u: seq<T>, v: seq<T>, w: seq<T>)
    ensures b + s + t + u + v + w == b + (s + t + u + v + w)
  {
    Append3(b, s, t, u);
    Append3(b, s + t + u, v, w);
  }

  /** `OutBuffer`: `data` is the `offset` bytes in use. */
  class OutBuffer {
    var data: string

    constructor ()
      ensures data == ""
    {
      data := "";
    }

    method WriteString(s: string)
      modifies this
      ensures data == old(data) + s
    {
      data := data + s;
    }

    method WriteByte(c: char)
      modifies this
      ensures data == old(data) + [c]
    {
      data := data + [c];
    }

    method Insert(u: nat, s: string)
      requires u <= |data|
      modifies this
      ensures data == old(data[..u]) + s + old(data[u..])
    {
      data := data[..u] + s + data[u..];
    }

    method Remove(u: nat, n: nat)
      requires u + n <= |data|
      modifies this
      ensures data == old(data[..u]) + old(data[u + n..])
    {
      data := data[..u] + data[u + n..];
    }
  }

  /** `Array`: a growing list. */
  class Array<T> {
    var data: seq<T>

    constructor ()
      ensures data == []
    {
      data := [];
    }

    method Push(x: T)
      modifies this
      ensures data == old(data) + [x]
    {
      data := data + [x];
    }

    method Shift(x: T)
      modifies this
      ensures data == [x] + old(data)
    {
      data := [x] + data;
    }
  }
}
