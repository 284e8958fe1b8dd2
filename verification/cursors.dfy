/** The parser's `Stack`: one generic cursor over an indexable sequence,
    used over the characters of the input (`Str`) and over the lexer's
    tokens (`WrappedLex`). A cursor is a value; each step returns the
    advanced cursor instead of moving a shared index. */
module Cursors {
  import opened Errors

  datatype Cursor<T> = Cursor(items: seq<T>, index: nat) {

    /** The index never passes the end: `take` checks before advancing. */
    predicate Valid() {
      index <= |items|
    }

    predicate HasNext() {
      index < |items|
    }

    /** Up to `amount` items from the index on, fewer near the end, as
        `slice` and `substring` clamp. */
    function Peek(amount: nat): (r: seq<T>)
      requires Valid()
      ensures |r| == if index + amount <= |items| then amount else |items| - index
      ensures forall k :: 0 <= k < |r| ==> r[k] == items[index + k]
    {
      if index + amount <= |items| then items[index..index + amount] else items[index..]
    }

    /** The next `amount` items and the cursor past them, or an error when
        fewer remain. */
    function Take(amount: nat): (r: Result<(seq<T>, Cursor<T>)>)
      requires Valid()
      ensures r.Failure? <==> index + amount > |items|
      ensures r.Failure? ==> r.error == UnexpectedEnd
      ensures r.Success? ==>
        && r.value.0 == Peek(amount)
        && |r.value.0| == amount
        && r.value.1.items == items
        && r.value.1.index == index + amount
        && r.value.1.Valid()
    {
      if index + amount > |items| then Failure(UnexpectedEnd)
      else Success((items[index..index + amount], Cursor(items, index + amount)))
    }

    /** `take()[0]`: the next item alone. */
    function TakeOne(): (r: Result<(T, Cursor<T>)>)
      requires Valid()
      ensures r.Success? <==> HasNext()
      ensures r.Failure? ==> r.error == UnexpectedEnd
      ensures r.Success? ==>
        && r.value.0 == items[index]
        && r.value.1.items == items
        && r.value.1.index == index + 1
        && r.value.1.Valid()
    {
      var p :- Take(1);
      Success((p.0[0], p.1))
    }

    /** One-token pushback: step back over the item just taken. */
    function Unread(): (r: Cursor<T>)
      requires Valid() && index > 0
      ensures r.items == items && r.index + 1 == index && r.Valid()
    {
      Cursor(items, index - 1)
    }
  }

  /** `hasNext` is exactly the condition under which a single-item `take`
      succeeds, and then `take` returns the item `peek` shows. */
  lemma HasNextTake<T>(c: Cursor<T>)
    requires c.Valid()
    ensures c.HasNext() <==> c.Take(1).Success?
    ensures c.HasNext() ==> c.Take(1).value.0 == [c.items[c.index]] == c.Peek(1)
  {
  }

  /** Taking and pushing back returns to the same position. */
  lemma TakeUnread<T>(c: Cursor<T>)
    requires c.Valid() && c.HasNext()
    ensures c.Take(1).value.1.Unread() == c
  {
  }
}
