/**
 * JSON arrays, src/json.c: `json_array_create`, `json_array_length`,
 * `json_array_get`, `json_array_set` and `json_array_push`.
 *
 * An array keeps `datalen` slots, `length` of them in use. A slot holds
 * the handle of a JSON object or NULL (`None`): a slot below `length`
 * that was never set is NULL, because new storage is zeroed.
 */
module JsonArrays {
  import opened Common

  /** The handle `json_null()` returns. */
  const NULL_OBJECT: nat := 0

  /** 8, 16, 32, ...: the capacities `json_array_set` grows to. */
  predicate IsGrowth(n: nat)
    decreases n
  {
    n == 8 || (n > 8 && n % 2 == 0 && IsGrowth(n / 2))
  }

  /** The capacity reached from `n` by doubling while it does not exceed
      `index`. */
  function Grown(n: nat, index: nat): nat
    requires n > 0
    decreases if n <= index then index + 1 - n else 0
  {
    if n <= index then Grown(2 * n, index) else n
  }

  /** Growing from 8 gives the smallest of 8, 16, 32, ... above `index`. */
  lemma {:induction false} GrownFrom(n: nat, index: nat)
    requires IsGrowth(n)
    ensures Grown(n, index) > index && IsGrowth(Grown(n, index))
    ensures Grown(n, index) == n || Grown(n, index) / 2 <= index
    decreases if n <= index then index + 1 - n else 0
  {
    if n <= index {
      assert (2 * n) / 2 == n;
      GrownFrom(2 * n, index);
    }
  }

  /** `s` with NULL slots added so that position `index` exists. */
  function Padded(s: seq<Option<nat>>, index: nat): seq<Option<nat>> {
    if index < |s| then s else s + seq(index + 1 - |s|, _ => None)
  }

  /** After setting position `index` to `v`, the array is long enough to
      hold it, holds `v` there, keeps every other element and reads NULL
      in the gap. */
  lemma SetElements(s: seq<Option<nat>>, index: nat, v: nat)
    ensures |Padded(s, index)[index := Some(v)]| == if index < |s| then |s| else index + 1
    ensures Padded(s, index)[index := Some(v)][index] == Some(v)
    ensures forall j :: 0 <= j < |Padded(s, index)| && j != index ==>
      Padded(s, index)[index := Some(v)][j] == if j < |s| then s[j] else None
  {
  }

  class JsonArray {
    var length: int
    var datalen: int
    var data: array<Option<nat>>

    ghost predicate Valid()
      reads this, data
    {
      data.Length == datalen && 0 <= length <= datalen &&
      forall i :: length <= i < datalen ==> data[i] == None
    }

    /** The elements in use. */
    function Elements(): seq<Option<nat>>
      requires Valid()
      reads this, data
    {
      data[..length]
    }

    /** `json_array_create`: four zeroed slots, none in use. */
    constructor ()
      ensures Valid() && Elements() == [] && datalen == 4 && fresh(data)
    {
      data := new Option<nat>[4](_ => None);
      length := 0;
      datalen := 4;
    }

    /** `json_array_length`. */
    function Length(): (n: nat)
      requires Valid()
      reads this, data
      ensures n == |Elements()|
    {
      length
    }

    /** `json_array_get`: the element at `index`, or `json_null()` when
        the index is out of range. */
    method Get(index: int) returns (r: Option<nat>)
      requires Valid()
      ensures r == if 0 <= index < |Elements()| then Elements()[index] else Some(NULL_OBJECT)
    {
      if 0 <= index && index < length {
        return data[index];
      }
      return Some(NULL_OBJECT);
    }

    /** Storage of `newlen` zeroed slots, the current ones copied in. */
    method Regrow(newlen: int)
      requires Valid() && newlen >= datalen
      modifies this
      ensures Valid() && fresh(data) && datalen == newlen
      ensures length == old(length) && Elements() == old(Elements())
    {
      var newarray := new Option<nat>[newlen](_ => None);
      var i := 0;
      while i < datalen
        invariant 0 <= i <= datalen
        invariant unchanged(this) && unchanged(data)
        invariant newarray[..i] == data[..i]
        invariant forall k :: i <= k < newlen ==> newarray[k] == None
      {
        newarray[i] := data[i];
        i := i + 1;
      }
      assert newarray[..length] == data[..length] by {
        assert newarray[..datalen][..length] == newarray[..length];
        assert data[..datalen][..length] == data[..length];
      }
      data := newarray;
      datalen := newlen;
    }

    /** `json_array_set`: grows the storage to the smallest of 8, 16,
        32, ... above `index` when it is too small, stores the value and
        extends the array to `index + 1` elements when `index` lies past
        its end. */
    method Set(value: nat, index: int) returns (err: int)
      requires Valid() && index >= 0
      modifies this, data
      ensures Valid() && err == 0
      ensures Elements() == Padded(old(Elements()), index)[index := Some(value)]
      ensures datalen == if index >= old(datalen) then Grown(8, index) else old(datalen)
    {
      if index >= datalen {
        var newlen := 8;
        while newlen <= index
          invariant newlen >= 8 && Grown(newlen, index) == Grown(8, index)
          decreases index - newlen
        {
          newlen := newlen * 2;
        }
        Regrow(newlen);
      }
      ghost var before := data[..length];
      data[index] := Some(value);
      if index >= length {
        length := index + 1;
      }
      assert Elements() == Padded(before, index)[index := Some(value)] by {
        forall j | 0 <= j < length
          ensures data[j] == Padded(before, index)[index := Some(value)][j]
        {
        }
      }
      err := 0;
    }

    /** `json_array_push`: sets the element just past the end. */
    method Push(value: nat) returns (err: int)
      requires Valid()
      modifies this, data
      ensures Valid() && err == 0
      ensures Elements() == old(Elements()) + [Some(value)]
    {
      ghost var before := Elements();
      err := Set(value, length);
      assert Padded(before, |before|) == before + [None];
    }
  }
}
