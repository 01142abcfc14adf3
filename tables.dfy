/**
  One guild's experience record. The bot keeps it in an insertion-ordered
  dictionary from member id to XP whose missing keys read as 0; here it is a
  sequence of entries, oldest first, so that the order in which members were
  first credited is part of the value (the leaderboard breaks ties by it).
 */
module Tables {

  type Member = int

  datatype Entry = Entry(member: Member, xp: int)

  type XpTable = seq<Entry>

  /** The member ids of a table, in insertion order. */
  function Members(t: XpTable): (ms: seq<Member>)
    ensures |ms| == |t|
  {
    if t == [] then [] else [t[0].member] + Members(t[1..])
  }

  predicate NoDuplicates(ms: seq<Member>)
  {
    forall i, j :: 0 <= i < j < |ms| ==> ms[i] != ms[j]
  }

  /** A dictionary holds each key once. */
  predicate DistinctMembers(t: XpTable)
  {
    NoDuplicates(Members(t))
  }

  /** The XP recorded for `m`, or 0 when `m` has none (`dict.get(m, 0)`). */
  function XpOf(t: XpTable, m: Member): int
  {
    if t == [] then 0
    else if t[0].member == m then t[0].xp
    else XpOf(t[1..], m)
  }

  /**
    `t[m] += d` on a dictionary whose missing keys default to 0: an existing
    entry is updated where it stands, a new member is appended at the end.
   */
  function AddXp(t: XpTable, m: Member, d: int): XpTable
  {
    if t == [] then [Entry(m, d)]
    else if t[0].member == m then [Entry(m, t[0].xp + d)] + t[1..]
    else [t[0]] + AddXp(t[1..], m, d)
  }

  /** A member without an entry reads as 0 XP. */
  lemma {:induction false} XpOfAbsent(t: XpTable, m: Member)
    requires m !in Members(t)
    ensures XpOf(t, m) == 0
  {
    if t != [] {
      XpOfAbsent(t[1..], m);
    }
  }

  /** Adding `d` to `m` raises `m`'s XP by exactly `d` and leaves every other member's XP alone. */
  lemma {:induction false} AddXpCredits(t: XpTable, m: Member, d: int)
    ensures XpOf(AddXp(t, m, d), m) == XpOf(t, m) + d
    ensures forall n :: n != m ==> XpOf(AddXp(t, m, d), n) == XpOf(t, n)
  {
    if t != [] && t[0].member != m {
      AddXpCredits(t[1..], m, d);
    }
  }

  /**
    Insertion order: crediting a member already present keeps every position,
    crediting a new member appends it last.
   */
  lemma {:induction false} AddXpOrder(t: XpTable, m: Member, d: int)
    ensures Members(AddXp(t, m, d)) == if m in Members(t) then Members(t) else Members(t) + [m]
  {
    if t != [] && t[0].member != m {
      AddXpOrder(t[1..], m, d);
    }
  }

  /** Crediting keeps each member in the table once. */
  lemma AddXpDistinct(t: XpTable, m: Member, d: int)
    requires DistinctMembers(t)
    ensures DistinctMembers(AddXp(t, m, d))
  {
    AddXpOrder(t, m, d);
  }
}
