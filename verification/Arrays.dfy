/** An array that owns its elements or views a region of a shared mapped file, copied on first write. */
module Arrays {
  import opened Json

  /** Who keeps the elements alive. A mapped file is shared by every view of it and never written. */
  datatype Owner<T> = Vec(v: array<T>) | Mapped(file: array<T>)

  class Array<T> {
    var owner: Owner<T>
    /** Where the elements start in the owner's buffer, and how many there are. */
    var at: nat
    var len: nat

    function Buffer(): array<T>
      reads this
    {
      match owner
      case Vec(v) => v
      case Mapped(file) => file
    }

    /** The region lies in the owner's buffer, and is all of an owned one. */
    ghost predicate Valid()
      reads this
    {
      at + len <= Buffer().Length && (owner.Vec? ==> at == 0 && len == owner.v.Length)
    }

    /** What dereferencing gives. */
    ghost function View(): seq<T>
      requires Valid()
      reads this, Buffer()
    {
      Buffer()[at..at + len]
    }

    constructor FromVec(v: array<T>)
      ensures Valid() && owner == Vec(v) && View() == v[..]
    {
      owner := Vec(v);
      at := 0;
      len := v.Length;
    }

    constructor OfFile(file: array<T>, at: nat, len: nat)
      requires at + len <= file.Length
      ensures Valid() && owner == Mapped(file) && View() == file[at..at + len]
    {
      owner := Mapped(file);
      this.at := at;
      this.len := len;
    }

    /** A view of `len` elements of the file, `None` when they are out of bounds. */
    static method MapFile(file: array<T>, at: nat, len: nat) returns (r: Option<Array<T>>)
      ensures r.Some? <==> at + len <= file.Length
      ensures r.Some? ==> fresh(r.value) && r.value.Valid() && r.value.owner == Mapped(file)
      ensures r.Some? ==> r.value.View() == file[at..at + len]
    {
      if at + len > file.Length {
        return None;
      }
      var a := new Array<T>.OfFile(file, at, len);
      r := Some(a);
    }

    /** An owned array is copied; a mapped one shares its file. */
    method Clone() returns (c: Array<T>)
      requires Valid()
      ensures fresh(c) && c.Valid() && c.View() == View()
      ensures owner.Vec? ==> c.owner.Vec? && fresh(c.owner.v)
      ensures owner.Mapped? ==> c.owner == owner
    {
      if owner.Vec? {
        var copy := CopyOf(owner.v, 0, len);
        c := new Array<T>.FromVec(copy);
      } else {
        c := new Array<T>.OfFile(owner.file, at, len);
      }
    }

    /** Replace the contents by `f` of them, on the heap: in place when the length stays, in a new buffer
      * when it changes or the elements were still in the file.
      */
    method WithMut(f: seq<T> -> seq<T>)
      requires Valid()
      modifies this, if owner.Vec? then {owner.v} else {}
      ensures Valid() && owner.Vec? && View() == f(old(View()))
      ensures old(owner).Mapped? ==> fresh(owner.v)
      ensures old(owner).Vec? ==> owner == old(owner) || fresh(owner.v)
    {
      ghost var before := View();
      if owner.Mapped? {
        var copy := CopyOf(owner.file, at, len);
        owner := Vec(copy);
        at := 0;
      }
      assert owner.v[..] == before;
      var contents := f(owner.v[..]);
      if |contents| == owner.v.Length {
        forall i | 0 <= i < |contents| {
          owner.v[i] := contents[i];
        }
      } else {
        var bigger := new T[|contents|](i requires 0 <= i < |contents| => contents[i]);
        owner := Vec(bigger);
      }
      assert owner.v[..] == contents;
      len := owner.v.Length;
    }
  }

  method CopyOf<T>(a: array<T>, at: nat, len: nat) returns (c: array<T>)
    requires at + len <= a.Length
    ensures fresh(c) && c[..] == a[at..at + len]
  {
    c := new T[len](i requires 0 <= i < len reads a requires at + len <= a.Length => a[at + i]);
  }

  /** Mutating a clone changes neither the original nor the file both may view. */
  method MutateClone<T>(a: Array<T>, f: seq<T> -> seq<T>) returns (c: Array<T>)
    requires a.Valid()
    ensures fresh(c) && c.Valid() && c.View() == f(a.View())
    ensures a.Valid() && a.View() == old(a.View()) && unchanged(a.Buffer())
  {
    c := a.Clone();
    c.WithMut(f);
  }

  /** Mutating the original changes neither its clone nor the file. */
  method MutateOriginal<T>(a: Array<T>, f: seq<T> -> seq<T>) returns (c: Array<T>)
    requires a.Valid()
    modifies a, if a.owner.Vec? then {a.owner.v} else {}
    ensures a.Valid() && a.View() == f(old(a.View()))
    ensures c.Valid() && c.View() == old(a.View())
    ensures old(a.owner).Mapped? ==> unchanged(old(a.owner).file)
  {
    c := a.Clone();
    a.WithMut(f);
  }
}
