/** Host facilities shared by the caches: optional values, put's outcome,
    the arguments a JavaScript caller can pass to put, expiry callbacks,
    timer handles, and the key-order sequences that stand for the iteration
    order of a JavaScript object. */
module Host {

  datatype Option<T> = None | Some(value: T)

  datatype Result<T, E> = Ok(value: T) | Err(error: E)

  /** The `time` argument of put: left undefined, a number of milliseconds,
      or something that is not a number at all (NaN, a string, an object). */
  datatype Ttl = NoTtl | Ms(ms: int) | NotANumber

  /** A function handed to put as its expiry callback: the hit-cache
      overlay's reincarnation handler, or some other function, named by an id. */
  datatype Callback = Reincarnate | External(id: nat)

  /** The `timeoutCallback` argument of put: left undefined, a function, or
      a value of another type. */
  datatype CallbackArg = NoCallback | Fn(f: Callback) | NotAFunction

  /** The two errors put throws. */
  datatype PutError = TimeoutNotPositive | CallbackNotFunction

  /** What setTimeout returns and clearTimeout takes. */
  type Handle = nat

  /** clearTimeout(handle): removes the timer from the pending table;
      clearing undefined or a timer that already ran does nothing. */
  function Cancel<T>(timers: map<Handle, T>, h: Option<Handle>): (r: map<Handle, T>)
    ensures h.None? ==> r == timers
    ensures h.Some? ==> r.Keys == timers.Keys - {h.value}
    ensures forall j :: j in r ==> j in timers && r[j] == timers[j]
  {
    if h.Some? then timers - {h.value} else timers
  }

  predicate Distinct(s: seq<string>) {
    forall i, j :: 0 <= i < j < |s| ==> s[i] != s[j]
  }

  /** Where `x` first occurs in `s`. */
  function IndexOf(s: seq<string>, x: string): (i: nat)
    requires x in s
    ensures i < |s| && s[i] == x && x !in s[..i]
  {
    if s[0] == x then 0 else 1 + IndexOf(s[1..], x)
  }

  /** `delete obj[key]` on the key order: the key leaves, the others keep
      their relative order (RemoveKeyCut). */
  function RemoveKey(s: seq<string>, x: string): (r: seq<string>)
    ensures forall y :: y in r <==> y in s && y != x
    ensures x !in s ==> r == s
    ensures Distinct(s) ==> Distinct(r)
    ensures Distinct(s) && x in s ==> |r| == |s| - 1
  {
    if s == [] then []
    else if s[0] == x then RemoveKey(s[1..], x)
    else
      var rest := RemoveKey(s[1..], x);
      assert Distinct(s) ==> s[0] !in s[1..];
      [s[0]] + rest
  }

  /** Deleting a key present once cuts out its one occurrence: the keys
      before it and the keys after it stay, in their order. */
  lemma RemoveKeyCut(s: seq<string>, x: string)
    requires Distinct(s) && x in s
    ensures RemoveKey(s, x) == s[..IndexOf(s, x)] + s[IndexOf(s, x) + 1..]
  {
    var i := IndexOf(s, x);
    forall j | i + 1 <= j < |s| ensures s[j] != x { }
    assert x !in s[i + 1..];
    CutLastOccurrence(s, x);
  }

  /** The same, for a key that does not occur after its first occurrence. */
  lemma {:induction false} CutLastOccurrence(s: seq<string>, x: string)
    requires x in s && x !in s[IndexOf(s, x) + 1..]
    ensures RemoveKey(s, x) == s[..IndexOf(s, x)] + s[IndexOf(s, x) + 1..]
  {
    if s[0] == x {
      assert s[..0] + s[1..] == s[1..];
    } else {
      assert IndexOf(s, x) == IndexOf(s[1..], x) + 1;
      assert s[IndexOf(s, x) + 1..] == s[1..][IndexOf(s[1..], x) + 1..];
      CutLastOccurrence(s[1..], x);
      CutBehindHead(s, x);
    }
  }

  /** One step of the above: a cut in the tail is a cut in the whole. */
  lemma CutBehindHead(s: seq<string>, x: string)
    requires x in s && s[0] != x && x in s[1..]
    requires RemoveKey(s[1..], x) == s[1..][..IndexOf(s[1..], x)] + s[1..][IndexOf(s[1..], x) + 1..]
    ensures RemoveKey(s, x) == s[..IndexOf(s, x)] + s[IndexOf(s, x) + 1..]
  {
    var t := s[1..];
    var j := IndexOf(t, x);
    assert IndexOf(s, x) == j + 1;
    assert s == [s[0]] + t;
    ConsCut(s[0], t, j);
  }

  /** Cutting position j + 1 out of `[a] + t` keeps `a` and cuts j out of `t`. */
  lemma ConsCut(a: string, t: seq<string>, j: nat)
    requires j < |t|
    ensures [a] + (t[..j] + t[j + 1..]) == ([a] + t)[..j + 1] + ([a] + t)[j + 2..]
  {
    var s := [a] + t;
    assert s[..j + 1] == [a] + t[..j];
    assert s[j + 2..] == t[j + 1..];
  }

  /** A duplicate-free sequence has as many elements as the set it lists. */
  lemma {:induction false} DistinctCard(s: seq<string>, m: set<string>)
    requires Distinct(s)
    requires forall x :: x in m <==> x in s
    ensures |m| == |s|
  {
    if s != [] {
      var n := |s| - 1;
      var init := s[..n];
      assert forall x :: x in init ==> x in s;
      assert s[n] !in init;
      forall x | x in m - {s[n]} ensures x in init {
        var j :| 0 <= j < |s| && s[j] == x;
        assert j < n;
        assert init[j] == x;
      }
      DistinctCard(init, m - {s[n]});
    }
  }
}
