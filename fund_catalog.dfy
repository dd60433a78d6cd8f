/** The fund catalog: the process-wide `fund_map_dict` from fund name to
    group id, and how the listing page's links update it (lines 36 and
    50-56 of line_app.py). */
module FundCatalog {
  import opened Outcomes

  /** One `<a>` of the listing table: its visible text and its `href`
      attribute (None when the tag has none). */
  datatype Link = Link(text: string, href: Option<string>)

  /** The query-string key whose value is a fund group's id. */
  const GroupIdKey: string := "txtGROUPID="

  /** `key` occurs in `s` at position `k`. */
  predicate KeyAt(s: string, key: string, k: nat) {
    k + |key| <= |s| && s[k..k + |key|] == key
  }

  ghost predicate HasKey(s: string, key: string) {
    exists k: nat :: KeyAt(s, key, k)
  }

  /** The first occurrence of `key` at or after `from`. */
  function FindKey(s: string, key: string, from: nat): (r: Option<nat>)
    decreases |s| - from
    ensures r.Some? ==> from <= r.value && KeyAt(s, key, r.value)
    ensures r.Some? ==> forall k: nat :: from <= k < r.value ==> !KeyAt(s, key, k)
    ensures r.None? ==> forall k: nat :: from <= k ==> !KeyAt(s, key, k)
  {
    if from + |key| > |s| then None
    else if KeyAt(s, key, from) then Some(from)
    else FindKey(s, key, from + 1)
  }

  lemma {:induction false} KeyInSlice(s: string, key: string, a: nat, b: nat, k: nat)
    requires a <= b <= |s| && KeyAt(s[a..b], key, k)
    ensures KeyAt(s, key, a + k) && a + k + |key| <= b
  {
    var n := |key|;
    forall t | 0 <= t < n ensures s[a + k + t] == key[t] {
      assert s[a..b][k..k + n][t] == s[a..b][k + t];
      assert s[a..b][k + t] == s[a + k + t];
    }
    assert s[a + k..a + k + n] == key;
  }

  /** A slice in which no key starts and ends holds no key. */
  lemma {:induction false} NoKeyInSlice(s: string, key: string, a: nat, b: nat)
    requires a <= b <= |s|
    requires forall k: nat :: a <= k && k + |key| <= b ==> !KeyAt(s, key, k)
    ensures !HasKey(s[a..b], key)
  {
    forall k: nat | KeyAt(s[a..b], key, k) ensures false {
      KeyInSlice(s, key, a, b, k);
    }
  }

  /** `s.split(key)[1]`: the text after the first `key`, up to the next
      `key` or the end; None where `[1]` raises IndexError. */
  function SplitSecond(s: string, key: string): (r: Option<string>)
    requires key != []
    ensures r.Some? <==> HasKey(s, key)
    ensures r.Some? ==> !HasKey(r.value, key)
  {
    var first := FindKey(s, key, 0);
    if first.None? then None
    else
      var start := first.value + |key|;
      var next := FindKey(s, key, start);
      var end := if next.None? then |s| else next.value;
      NoKeyInSlice(s, key, start, end);
      Some(s[start..end])
  }

  /** Line 55: the group id in a fund link's `href`. */
  function GroupIdOf(href: string): (r: Option<string>)
    ensures r.Some? <==> HasKey(href, GroupIdKey)
    ensures r.Some? ==> !HasKey(r.value, GroupIdKey)
  {
    SplitSecond(href, GroupIdKey)
  }

  /** The last character of `key` appears nowhere else in it, so no two
      occurrences of `key` can overlap. `txtGROUPID=` is such a key. */
  ghost predicate EndsUniquely(key: string) {
    |key| > 0 && forall t :: 0 <= t < |key| - 1 ==> key[t] != key[|key| - 1]
  }

  lemma {:induction false} GroupIdKeyEndsUniquely()
    ensures EndsUniquely(GroupIdKey)
  {
  }

  /** An occurrence in `y` is one in `x + y`, shifted by `|x|`. */
  lemma {:induction false} KeyShift(x: string, y: string, key: string, k: nat)
    ensures KeyAt(x + y, key, |x| + k) <==> KeyAt(y, key, k)
  {
    if k + |key| <= |y| {
      assert (x + y)[|x| + k..|x| + k + |key|] == y[k..k + |key|];
    }
  }

  /** The character at offset `t` of an occurrence is the key's. */
  lemma {:induction false} KeyChar(s: string, key: string, n: nat, t: nat)
    requires t < |key|
    ensures KeyAt(s, key, n) ==> s[n + t] == key[t]
  {
    if KeyAt(s, key, n) {
      assert s[n..n + |key|][t] == s[n + t];
    }
  }

  /** No occurrence can start before `n` and end past `n` when one starts at `n`. */
  lemma {:induction false} NoStraddle(s: string, key: string, n: nat, k: nat)
    requires EndsUniquely(key) && KeyAt(s, key, n) && k < n < k + |key|
    ensures !KeyAt(s, key, k)
  {
    var w := |key|;
    KeyChar(s, key, n, k + w - 1 - n);
    KeyChar(s, key, k, w - 1);
  }

  /** In `p + t`, where `p` holds no key and `t` starts with one, the first
      key is the one at `|p|`. */
  lemma {:induction false} FirstKeyAfter(p: string, t: string, key: string)
    requires EndsUniquely(key) && !HasKey(p, key) && KeyAt(t, key, 0)
    ensures KeyAt(p + t, key, |p|)
    ensures forall k: nat :: k < |p| ==> !KeyAt(p + t, key, k)
  {
    var s := p + t;
    var n := |key|;
    KeyShift(p, t, key, 0);
    forall k: nat | k < |p| ensures !KeyAt(s, key, k) {
      if k + n <= |p| {
        assert p[k..k + n] == s[k..k + n];
        assert !KeyAt(p, key, k);
      } else {
        NoStraddle(s, key, |p|, k);
      }
    }
  }

  /** The first occurrence at or after `from` is at `n`. */
  lemma {:induction false} FindKeyAt(s: string, key: string, from: nat, n: nat)
    requires from <= n && KeyAt(s, key, n)
    requires forall k: nat :: from <= k < n ==> !KeyAt(s, key, k)
    ensures FindKey(s, key, from) == Some(n)
  {
  }

  lemma {:induction false} StartsWithKey(key: string, t: string)
    ensures KeyAt(key + t, key, 0)
  {
    assert (key + t)[..|key|] == key;
  }

  /** The second search finds nothing when `id` holds no key. */
  lemma {:induction false} SecondSearchAtEnd(head: string, id: string, key: string)
    requires !HasKey(id, key)
    ensures FindKey(head + id, key, |head|).None?
  {
    forall k: nat | |head| <= k ensures !KeyAt(head + id, key, k) {
      KeyShift(head, id, key, k - |head|);
      assert !KeyAt(id, key, k - |head|);
    }
  }

  /** Positions with no key in `y` have none in `x + y` either, shifted. */
  lemma {:induction false} NoKeyShifted(x: string, y: string, key: string, m: nat)
    requires forall k: nat :: k < m ==> !KeyAt(y, key, k)
    ensures forall k: nat :: |x| <= k < |x| + m ==> !KeyAt(x + y, key, k)
  {
    forall k: nat | |x| <= k < |x| + m ensures !KeyAt(x + y, key, k) {
      KeyShift(x, y, key, k - |x|);
    }
  }

  /** The second search stops at the key that starts `tail`. */
  lemma {:induction false} SecondSearchAtKey(head: string, id: string, tail: string, key: string)
    requires EndsUniquely(key) && !HasKey(id, key) && KeyAt(tail, key, 0)
    ensures FindKey(head + id + tail, key, |head|) == Some(|head| + |id|)
  {
    assert head + id + tail == head + (id + tail);
    FirstKeyAfter(id, tail, key);
    NoKeyShifted(head, id + tail, key, |id|);
    KeyShift(head, id + tail, key, |id|);
    FindKeyAt(head + (id + tail), key, |head|, |head| + |id|);
  }

  /** The first search stops at the key after `p`. */
  lemma {:induction false} FirstSearch(p: string, rest: string, key: string)
    requires EndsUniquely(key) && !HasKey(p, key)
    ensures FindKey(p + (key + rest), key, 0) == Some(|p|)
  {
    StartsWithKey(key, rest);
    FirstKeyAfter(p, key + rest, key);
    FindKeyAt(p + (key + rest), key, 0, |p|);
  }

  /** `SplitSecond` from the results of its two searches. */
  lemma {:induction false} SplitSecondFound(s: string, key: string, i: nat, end: nat)
    requires key != [] && FindKey(s, key, 0) == Some(i) && i + |key| <= end <= |s|
    requires FindKey(s, key, i + |key|) == (if end == |s| then None else Some(end))
    ensures SplitSecond(s, key) == Some(s[i + |key|..end])
  {
    if end == |s| {
      assert FindKey(s, key, i + |key|).None?;
    }
  }

  /** `(p + key + id).split(key)[1] == id` when neither `p` nor `id` holds
      the key. */
  lemma {:induction false} SplitSecondOfLast(p: string, id: string, key: string)
    requires EndsUniquely(key) && !HasKey(p, key) && !HasKey(id, key)
    ensures SplitSecond(p + key + id, key) == Some(id)
  {
    var head := p + key;
    var s := head + id;
    assert s == p + (key + id);
    FirstSearch(p, id, key);
    SecondSearchAtEnd(head, id, key);
    assert s[|head|..|s|] == id;
    SplitSecondFound(s, key, |p|, |s|);
  }

  /** In a link `p + key + id + tail`, the first search stops after `p`. */
  lemma {:induction false} FirstSearchInLink(p: string, key: string, id: string, tail: string)
    requires EndsUniquely(key) && !HasKey(p, key)
    ensures FindKey(p + key + id + tail, key, 0) == Some(|p|)
  {
    assert p + key + id + tail == p + (key + (id + tail));
    FirstSearch(p, id + tail, key);
  }

  /** In a link `p + key + id + tail`, the second search stops after `id`. */
  lemma {:induction false} SecondSearchInLink(p: string, key: string, id: string, tail: string)
    requires EndsUniquely(key) && !HasKey(id, key) && KeyAt(tail, key, 0)
    ensures FindKey(p + key + id + tail, key, |p| + |key|) == Some(|p| + |key| + |id|)
  {
    SecondSearchAtKey(p + key, id, tail, key);
  }

  /** Where `id` sits in `p + key + id + tail`. */
  lemma {:induction false} IdOfLink(p: string, key: string, id: string, tail: string)
    ensures (p + key + id + tail)[|p| + |key|..|p| + |key| + |id|] == id
  {
  }

  /** The facts about a link `p + key + id + tail` that fix its
      `split(key)[1]`: where its first two keys are, and what lies between. */
  lemma {:induction false} LinkSearches(p: string, key: string, id: string, tail: string)
    requires EndsUniquely(key) && !HasKey(p, key) && !HasKey(id, key)
    requires KeyAt(tail, key, 0)
    ensures var s := p + key + id + tail;
      && KeyAt(s, key, |p|)
      && (forall k: nat :: k < |p| ==> !KeyAt(s, key, k))
      && KeyAt(s, key, |p| + |key| + |id|)
      && (forall k: nat :: |p| + |key| <= k < |p| + |key| + |id| ==> !KeyAt(s, key, k))
      && s[|p| + |key|..|p| + |key| + |id|] == id
  {
    FirstSearchInLink(p, key, id, tail);
    SecondSearchInLink(p, key, id, tail);
    IdOfLink(p, key, id, tail);
  }

  /** `SplitSecond` when the first key is at `i` and the next one at `j`. */
  lemma {:induction false} SplitSecondBetween(s: string, key: string, i: nat, j: nat, id: string)
    requires key != [] && i + |key| <= j
    requires KeyAt(s, key, i) && forall k: nat :: k < i ==> !KeyAt(s, key, k)
    requires KeyAt(s, key, j) && forall k: nat :: i + |key| <= k < j ==> !KeyAt(s, key, k)
    requires s[i + |key|..j] == id
    ensures SplitSecond(s, key) == Some(id)
  {
    FindKeyAt(s, key, 0, i);
    FindKeyAt(s, key, i + |key|, j);
    SplitSecondFound(s, key, i, j);
  }

  /** `(p + key + id + tail).split(key)[1] == id` when neither `p` nor `id`
      holds the key and `tail` starts with it. */
  lemma {:induction false} SplitSecondOfMiddle(p: string, id: string, tail: string, key: string)
    requires EndsUniquely(key) && !HasKey(p, key) && !HasKey(id, key)
    requires KeyAt(tail, key, 0)
    ensures SplitSecond(p + key + id + tail, key) == Some(id)
  {
    LinkSearches(p, key, id, tail);
    SplitSecondBetween(p + key + id + tail, key, |p|, |p| + |key| + |id|, id);
  }

  /** `(p + key + id + tail).split(key)[1] == id` when neither `p` nor `id`
      holds the key and `tail` is empty or starts with it. */
  lemma {:induction false} SplitSecondOf(p: string, id: string, tail: string, key: string)
    requires EndsUniquely(key) && !HasKey(p, key) && !HasKey(id, key)
    requires tail == [] || KeyAt(tail, key, 0)
    ensures SplitSecond(p + key + id + tail, key) == Some(id)
  {
    if tail == [] {
      assert p + key + id + tail == p + key + id;
      SplitSecondOfLast(p, id, key);
    } else {
      SplitSecondOfMiddle(p, id, tail, key);
    }
  }

  /** A listing link `p + "txtGROUPID=" + id`, maybe followed by a second
      `txtGROUPID=`, yields exactly `id`. */
  lemma {:induction false} GroupIdOfLink(p: string, id: string, tail: string)
    requires !HasKey(p, GroupIdKey) && !HasKey(id, GroupIdKey)
    requires tail == [] || KeyAt(tail, GroupIdKey, 0)
    ensures GroupIdOf(p + GroupIdKey + id + tail) == Some(id)
  {
    GroupIdKeyEndsUniquely();
    SplitSecondOf(p, id, tail, GroupIdKey);
  }

  /** The dictionary as Python keeps it: its keys in insertion order, and
      the name-to-id mapping. Overwriting a key keeps its position. */
  datatype Catalog = Catalog(order: seq<string>, groups: map<string, string>)

  ghost predicate Valid(c: Catalog) {
    && (forall i, j :: 0 <= i < j < |c.order| ==> c.order[i] != c.order[j])
    && (forall k :: k in c.groups <==> k in c.order)
  }

  /** `fund_map_dict[name] = id` (line 56). */
  function Put(c: Catalog, name: string, id: string): (r: Catalog)
    requires Valid(c)
    ensures Valid(r)
    ensures r.groups == c.groups[name := id]
    ensures c.order <= r.order && (name in c.groups ==> r.order == c.order)
  {
    if name in c.groups then Catalog(c.order, c.groups[name := id])
    else Catalog(c.order + [name], c.groups[name := id])
  }

  /** The catalog after the loop of lines 50-56, and whether the loop ran
      to the end; on a failure the updates made so far stay. */
  datatype Loaded = Loaded(catalog: Catalog, status: Result<()>)

  /** Whether a link with non-empty text gets through line 55. */
  ghost predicate Usable(l: Link) {
    l.href.Some? && HasKey(l.href.value, GroupIdKey)
  }

  /** The loop of lines 50-56 over `links`, starting from `c`. */
  function Absorb(c: Catalog, links: seq<Link>): (r: Loaded)
    requires Valid(c)
    ensures Valid(r.catalog)
    ensures c.order <= r.catalog.order
    ensures r.status.Err? ==> exists l :: l in links && l.text != "" && !Usable(l)
    decreases |links|
  {
    if links == [] then Loaded(c, Ok(()))
    else
      var l := links[0];
      assert forall x :: x in links[1..] ==> x in links;
      if l.text == "" then Absorb(c, links[1..])
      else if l.href.None? then Loaded(c, Err(HrefMissing))
      else
        var id := GroupIdOf(l.href.value);
        if id.None? then Loaded(c, Err(GroupIdMissing(l.href.value)))
        else Absorb(Put(c, l.text, id.value), links[1..])
  }

  /** The loop stops early exactly when a link with text lacks a usable href. */
  lemma {:induction false} AbsorbSucceeds(c: Catalog, links: seq<Link>)
    requires Valid(c)
    ensures Absorb(c, links).status.Ok? <==>
            forall i :: 0 <= i < |links| && links[i].text != "" ==> Usable(links[i])
    decreases |links|
  {
    if links != [] {
      var l := links[0];
      assert forall i :: 1 <= i < |links| ==> links[1..][i - 1] == links[i];
      if l.text == "" {
        AbsorbSucceeds(c, links[1..]);
      } else if Usable(l) {
        AbsorbSucceeds(Put(c, l.text, GroupIdOf(l.href.value).value), links[1..]);
      }
    }
  }

  /** Running the loop over `a + b` is running it over `a`, then over `b`
      if nothing failed. */
  lemma {:induction false} AbsorbAppend(c: Catalog, a: seq<Link>, b: seq<Link>)
    requires Valid(c)
    ensures Absorb(c, a + b) ==
      (var r := Absorb(c, a); if r.status.Ok? then Absorb(r.catalog, b) else r)
    decreases |a|
  {
    if a != [] {
      assert (a + b)[0] == a[0] && (a + b)[1..] == a[1..] + b;
      var l := a[0];
      if l.text == "" {
        AbsorbAppend(c, a[1..], b);
      } else if l.href.Some? && GroupIdOf(l.href.value).Some? {
        AbsorbAppend(Put(c, l.text, GroupIdOf(l.href.value).value), a[1..], b);
      }
    } else {
      assert a + b == b;
    }
  }

  /** Links with empty text change nothing (line 52). */
  lemma {:induction false} EmptyTextIgnored(c: Catalog, a: seq<Link>, h: Option<string>, b: seq<Link>)
    requires Valid(c)
    ensures Absorb(c, a + [Link("", h)] + b) == Absorb(c, a + b)
  {
    AbsorbAppend(c, a + [Link("", h)], b);
    AbsorbAppend(c, a, [Link("", h)]);
    AbsorbAppend(c, a, b);
    var r := Absorb(c, a);
    if r.status.Ok? {
      assert [Link("", h)][1..] == [];
    }
  }

  /** A name no link carries keeps its old entry, or stays absent, whether
      or not the loop fails. */
  lemma {:induction false} OtherNamesKept(c: Catalog, links: seq<Link>, name: string)
    requires Valid(c)
    requires forall i :: 0 <= i < |links| ==> links[i].text != name
    ensures var r := Absorb(c, links).catalog;
      (name in r.groups <==> name in c.groups) && (name in c.groups ==> r.groups[name] == c.groups[name])
    decreases |links|
  {
    if links != [] {
      var l := links[0];
      assert forall i :: 1 <= i < |links| ==> links[1..][i - 1] == links[i];
      if l.text == "" {
        OtherNamesKept(c, links[1..], name);
      } else if l.href.Some? && GroupIdOf(l.href.value).Some? {
        OtherNamesKept(Put(c, l.text, GroupIdOf(l.href.value).value), links[1..], name);
      }
    }
  }

  /** After a complete run, a name maps to the id of the last link that
      carries it: later duplicates overwrite earlier ones. */
  lemma {:induction false} LastLinkWins(c: Catalog, links: seq<Link>, i: nat)
    requires Valid(c) && Absorb(c, links).status.Ok?
    requires i < |links| && links[i].text != ""
    requires forall j :: i < j < |links| ==> links[j].text != links[i].text
    ensures links[i].href.Some? && GroupIdOf(links[i].href.value).Some?
    ensures var r := Absorb(c, links).catalog;
      links[i].text in r.groups && r.groups[links[i].text] == GroupIdOf(links[i].href.value).value
    decreases |links|
  {
    var l := links[0];
    assert forall j :: 1 <= j < |links| ==> links[1..][j - 1] == links[j];
    if i == 0 {
      var c' := Put(c, l.text, GroupIdOf(l.href.value).value);
      OtherNamesKept(c', links[1..], l.text);
    } else if l.text == "" {
      LastLinkWins(c, links[1..], i - 1);
    } else {
      LastLinkWins(Put(c, l.text, GroupIdOf(l.href.value).value), links[1..], i - 1);
    }
  }

  /** The non-empty link texts. */
  function LinkNames(links: seq<Link>): (r: set<string>)
    ensures forall x :: x in r <==> x != "" && exists i :: 0 <= i < |links| && links[i].text == x
  {
    if links == [] then {}
    else
      assert forall i :: 1 <= i < |links| ==> links[1..][i - 1] == links[i];
      (if links[0].text == "" then {} else {links[0].text}) + LinkNames(links[1..])
  }

  /** After a complete run the names are the old ones plus every non-empty
      link text; nothing is ever removed. */
  lemma {:induction false} AbsorbNames(c: Catalog, links: seq<Link>)
    requires Valid(c) && Absorb(c, links).status.Ok?
    ensures Absorb(c, links).catalog.groups.Keys == c.groups.Keys + LinkNames(links)
    decreases |links|
  {
    if links != [] {
      var l := links[0];
      if l.text == "" {
        AbsorbNames(c, links[1..]);
      } else {
        AbsorbNames(Put(c, l.text, GroupIdOf(l.href.value).value), links[1..]);
      }
    }
  }
}
