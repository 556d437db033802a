/** The user record the profile page receives from its GraphQL query, and the
    transaction filter shared by the level line and the XP chart. */
module Records {
  import opened Text

  /** One transaction: its type tag (`"xp"`, `"level"`, ...), amount, creation
      time as an integer timestamp, and slash-separated curriculum path. */
  datatype Transaction = Transaction(kind: string, amount: int, createdAt: int, path: string)

  const LevelKind: string := "level"
  const XpKind: string := "xp"

  /** Paths of the piscine and rust tracks are kept out of level and XP figures. */
  predicate Excluded(path: string) {
    Includes(path, "piscine") || Includes(path, "rust")
  }

  /** The filter callback: the type tag matches and the path is not excluded. */
  predicate Qualifies(t: Transaction, kind: string) {
    t.kind == kind && !Excluded(t.path)
  }

  /** `transactions.filter(...)` keeping the transactions that qualify for `kind`. */
  function Candidates(ts: seq<Transaction>, kind: string): (r: seq<Transaction>)
    ensures |r| <= |ts|
    ensures forall t :: t in r <==> t in ts && Qualifies(t, kind)
  {
    if ts == [] then []
    else
      var init := Candidates(ts[..|ts| - 1], kind);
      var last := ts[|ts| - 1];
      assert forall t :: t in ts <==> t in ts[..|ts| - 1] || t == last;
      if Qualifies(last, kind) then init + [last] else init
  }

  /** The filter keeps each qualifying transaction as often as it occurs and
      drops every other one. */
  lemma {:induction false} CandidatesCount(ts: seq<Transaction>, kind: string)
    ensures forall t :: multiset(Candidates(ts, kind))[t] ==
                        (if Qualifies(t, kind) then multiset(ts)[t] else 0)
  {
    if ts != [] {
      CandidatesCount(ts[..|ts| - 1], kind);
      assert ts == ts[..|ts| - 1] + [ts[|ts| - 1]];
    }
  }

  /** The filter preserves input order: filtering a concatenation is the
      concatenation of the filtered parts. */
  lemma {:induction false} CandidatesAppend(a: seq<Transaction>, b: seq<Transaction>, kind: string)
    ensures Candidates(a + b, kind) == Candidates(a, kind) + Candidates(b, kind)
    decreases |b|
  {
    if b != [] {
      var b' := b[..|b| - 1];
      CandidatesAppend(a, b', kind);
      assert (a + b)[..|a + b| - 1] == a + b';
      assert (a + b)[|a + b| - 1] == b[|b| - 1];
    } else {
      assert a + b == a;
    }
  }
}
