/** Small notions that several modules share. */
module Basics {

  datatype Option<T> = None | Some(value: T)

  type byte = x: int | 0 <= x < 0x100

  lemma Regroup<T>(a: seq<T>, b: seq<T>, c: seq<T>)
    ensures a + (b + c) == a + b + c
  {
  }

  /** Names an instance of transitivity for the verifier; always true. */
  ghost predicate Through<T>(a: T, b: T, c: T) {
    true
  }
}

/** Singly linked lists: a head pointer and the next fields of nodes that are named by numbers. */
module Links {
  import opened Basics

  /** None is NULL. */
  type Ptr = Option<nat>

  predicate Distinct(list: seq<nat>) {
    forall i, j :: 0 <= i < j < |list| ==> list[i] != list[j]
  }

  predicate LinkOk(next: map<nat, Ptr>, list: seq<nat>, i: nat)
    requires i < |list|
  {
    list[i] in next && next[list[i]] == if i + 1 < |list| then Some(list[i + 1]) else None
  }

  /** head and the next fields link exactly the list. */
  predicate Chain(next: map<nat, Ptr>, head: Ptr, list: seq<nat>) {
    && head == (if list == [] then None else Some(list[0]))
    && (forall i :: 0 <= i < |list| ==> LinkOk(next, list, i))
  }
}
