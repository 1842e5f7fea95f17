/**
 The order of a sorted set in terms of integers and bytes only (src/core/zset.rs): ascending scores,
 members byte by byte, and a rank that counts the members that come before.
 */
module ZSetOrder {
  import opened Bits
  import opened ZSetSpec

  /** `a` is a proper prefix of `b`, or has the smaller byte where they first differ. */
  ghost predicate BytesBefore(a: Member, b: Member) {
    || (|a| < |b| && a == b[..|a|])
    || exists j: nat :: FirstDiffers(a, b, j)
  }

  ghost predicate FirstDiffers(a: Member, b: Member, j: nat) {
    j < |a| && j < |b| && a[j] < b[j] && forall i :: 0 <= i < j ==> a[i] == b[i]
  }

  /** `a` comes before `b`: a smaller score, or the same score and smaller bytes. */
  ghost predicate ComesBefore(a: Key, b: Key) {
    a.score < b.score || (a.score == b.score && BytesBefore(a.member, b.member))
  }

  lemma {:induction false} LexMeans(a: Member, b: Member)
    ensures LexLess(a, b) <==> BytesBefore(a, b)
    decreases |a|
  {
    if a == [] || b == [] {
      return;
    }
    LexMeans(a[1..], b[1..]);
    assert a == [a[0]] + a[1..] && b == [b[0]] + b[1..];
    if a[0] < b[0] {
      assert FirstDiffers(a, b, 0);
    } else if a[0] == b[0] {
      SkipFirst(a, b);
    } else if BytesBefore(a, b) {
      NotBefore(a, b);
    }
  }

  lemma NotBefore(a: Member, b: Member)
    requires a != [] && b != [] && a[0] > b[0]
    ensures !BytesBefore(a, b)
  {
  }

  lemma SkipFirst(a: Member, b: Member)
    requires a != [] && b != [] && a[0] == b[0]
    ensures BytesBefore(a, b) <==> BytesBefore(a[1..], b[1..])
  {
    var c, d := a[1..], b[1..];
    if j: nat :| FirstDiffers(a, b, j) {
      assert FirstDiffers(c, d, j - 1);
    }
    if j: nat :| FirstDiffers(c, d, j) {
      forall i | 0 <= i < j + 1
        ensures a[i] == b[i]
      {
        assert i > 0 ==> c[i - 1] == d[i - 1];
      }
      assert FirstDiffers(a, b, j + 1);
    }
    if |c| < |d| && c == d[..|c|] {
      assert a == [a[0]] + c && b[..|a|] == [b[0]] + d[..|c|];
    }
    if |a| < |b| && a == b[..|a|] {
      assert c == b[..|a|][1..] == d[..|c|];
    }
  }

  lemma LessMeans(a: Key, b: Key)
    ensures Less(a, b) <==> ComesBefore(a, b)
  {
    LexMeans(a.member, b.member);
  }

  /** Ascending order, without the comparison functions of the set. */
  ghost predicate InOrder(s: seq<Key>) {
    forall i, j :: 0 <= i < j < |s| ==> ComesBefore(s[i], s[j])
  }

  lemma SortedInOrder(s: seq<Key>)
    requires Sorted(s)
    ensures InOrder(s)
  {
    hide ComesBefore, Less;
    forall i, j | 0 <= i < j < |s|
      ensures ComesBefore(s[i], s[j])
    {
      LessMeans(s[i], s[j]);
    }
  }

  // ---- ranks ----

  /** The members that come before `key`. */
  ghost function Earlier(index: map<Member, Score>, key: Key): set<Member> {
    set m | m in index && ComesBefore(Key(index[m], m), key)
  }

  function Members(s: seq<Key>): (r: seq<Member>)
    ensures |r| == |s|
  {
    seq(|s|, i requires 0 <= i < |s| => s[i].member)
  }

  lemma {:induction false} SetSize(s: seq<Member>)
    requires forall i, j :: 0 <= i < j < |s| ==> s[i] != s[j]
    ensures |set m | m in s| == |s|
    decreases |s|
  {
    if s != [] {
      var n := |s| - 1;
      SetSize(s[..n]);
      assert (set m | m in s) == (set m | m in s[..n]) + {s[n]};
    }
  }

  lemma MembersDistinct(s: seq<Key>, index: map<Member, Score>)
    requires Sorted(s) && Indexed(s, index)
    ensures forall i, j :: 0 <= i < j < |s| ==> s[i].member != s[j].member
  {
    SortedDistinct(s);
    hide Less, Sorted;
    forall i, j | 0 <= i < j < |s|
      ensures s[i].member != s[j].member
    {
      assert s[i] in s && s[j] in s;
      assert s[i] == Key(s[i].score, s[i].member) && s[j] == Key(s[j].score, s[j].member);
    }
  }

  lemma EarlierIsPrefix(s: seq<Key>, index: map<Member, Score>, r: nat, m: Member)
    requires Sorted(s) && Indexed(s, index) && r < |s|
    ensures m in Earlier(index, s[r]) <==> m in Members(s[..r])
  {
    hide Less;
    if m in Members(s[..r]) {
      var i :| 0 <= i < r && s[i].member == m;
      assert s[i] in s && s[i] == Key(index[m], m);
      LessMeans(s[i], s[r]);
    }
    if m in Earlier(index, s[r]) {
      assert Key(index[m], m) in s;
      var i :| 0 <= i < |s| && s[i] == Key(index[m], m);
      LessMeans(s[i], s[r]);
      LessTotal(s[i], s[r]);
      assert i < r;
      assert Members(s[..r])[i] == m;
    }
  }

  /** The position of an entry is the number of members that come before it. */
  lemma RankCounts(s: seq<Key>, index: map<Member, Score>, r: nat)
    requires Sorted(s) && Indexed(s, index) && r < |s|
    ensures |Earlier(index, s[r])| == r
  {
    hide Sorted, Indexed, Earlier;
    MembersDistinct(s, index);
    var ms := Members(s[..r]);
    SetSize(ms);
    forall m
      ensures m in Earlier(index, s[r]) <==> m in ms
    {
      EarlierIsPrefix(s, index, r, m);
    }
    assert Earlier(index, s[r]) == set m | m in ms;
  }

  /** Every other member comes after the first entry and before the last. */
  lemma Ends(s: seq<Key>, index: map<Member, Score>, m: Member)
    requires Sorted(s) && Indexed(s, index) && s != [] && m in index
    ensures m != s[0].member ==> ComesBefore(s[0], Key(index[m], m))
    ensures m != s[|s| - 1].member ==> ComesBefore(Key(index[m], m), s[|s| - 1])
  {
    hide Less, ComesBefore;
    assert Key(index[m], m) in s;
    var i :| 0 <= i < |s| && s[i] == Key(index[m], m);
    LessMeans(s[0], s[i]);
    LessMeans(s[i], s[|s| - 1]);
  }
}
