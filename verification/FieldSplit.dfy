/**
 The in-place split of one frame into fields: `strtok` over the receive buffer and
 `csi_info_analysis`, which reads the cut strings back.
 */
module FieldSplit {
  import opened ReplayWire

  // ---------- strtok ----------

  /** Address `p` of memory `m` holds the zero-terminated string `t`. */
  predicate StringAt(m: string, p: int, t: string) {
    && 0 <= p && p + |t| < |m| && m[p + |t|] == NUL
    && forall k | p <= k < p + |t| :: m[k] == t[k - p] != NUL
  }

  /** The zero-terminated string at address `p`. */
  function ReadString(m: string, p: nat): string
    requires p <= |m|
  {
    var e := FindChar(m[p..], NUL);
    if e < 0 then m[p..] else m[p..p + e]
  }

  lemma ReadStringAt(m: string, p: nat, t: string)
    requires StringAt(m, p, t)
    ensures ReadString(m, p) == t
  {
    assert forall k | 0 <= k < |t| :: m[p..][k] == m[p + k] == t[k];
    assert FindChar(m[p..], NUL) == |t|;
    assert m[p..p + |t|] == t;
  }

  predicate NulFree(m: string, lo: nat, hi: nat) {
    hi <= |m| && forall k | lo <= k < hi :: m[k] != NUL
  }

  /** Only addresses strictly between `lo` and `hi` may differ. */
  predicate SameOutside(m: string, m': string, lo: nat, hi: nat) {
    |m| == |m'| && forall k | 0 <= k < |m| && (k <= lo || k >= hi) :: m'[k] == m[k]
  }

  method SkipCommas(b: array<char>, from: nat, limit: nat) returns (p: nat)
    requires from <= limit < b.Length
    ensures from <= p <= limit && (p < limit ==> b[p] != ',')
    ensures Tokens(b[p..limit]) == Tokens(b[from..limit])
  {
    p := from;
    while p < limit && b[p] == ','
      invariant from <= p <= limit
      invariant Tokens(b[p..limit]) == Tokens(b[from..limit])
    {
      assert b[p..limit][1..] == b[p + 1..limit];
      p := p + 1;
    }
  }

  method ScanToken(b: array<char>, from: nat, limit: nat) returns (q: nat)
    requires from < limit < b.Length && b[from] != ','
    ensures from < q <= limit && (q < limit ==> b[q] == ',') && Without(b[from..q], ',')
  {
    q := from;
    while q < limit && b[q] != ','
      invariant from <= q <= limit
      invariant forall k | from <= k < q :: b[k] != ','
    {
      q := q + 1;
    }
  }

  /** One `strtok` call that continues at `from` in text ending at `limit`: it skips commas, ends
      the next token with a NUL in place and returns its address (-1 for a null pointer)
      and where to continue. */
  method StrTok(b: array<char>, from: nat, limit: nat, ghost ts: seq<string>) returns (token: int, save: nat)
    requires from <= limit < b.Length && b[limit] == NUL && NulFree(b[..], from, limit)
    requires Tokens(b[from..limit]) == ts
    modifies b
    ensures token < 0 <==> ts == []
    ensures from <= save <= limit && NulFree(b[..], save, limit)
    ensures token >= 0 ==> Cut(b[..], ts, token, save, limit)
    ensures SameOutside(old(b[..]), b[..], from, limit)
  {
    var p := SkipCommas(b, from, limit);
    if p == limit {
      return -1, limit;
    }
    var q := ScanToken(b, p, limit);
    ghost var m := b[..];
    assert m[p..limit] == b[p..limit] && m[p..q] == b[p..q];
    token, save := p, q;
    if q < limit {
      b[q] := NUL;
      save := q + 1;
      assert b[..] == m[q := NUL];
    }
    CutAfterScan(m, ts, from, p, q, limit);
  }

  lemma CutAfterScan(m: string, ts: seq<string>, from: nat, p: nat, q: nat, limit: nat)
    requires from <= p < q <= limit < |m| && m[limit] == NUL && NulFree(m, from, limit)
    requires (q < limit ==> m[q] == ',') && Without(m[p..q], ',') && Tokens(m[p..limit]) == ts
    ensures if q < limit then Cut(m[q := NUL], ts, p, q + 1, limit) else Cut(m, ts, p, q, limit)
  {
    var u, e := m[p..limit], q - p;
    assert u[..e] == m[p..q];
    TokensCut(u, e);
    if q < limit {
      var m' := m[q := NUL];
      assert m'[q + 1..limit] == u[e + 1..];
      assert ts[0] == u[..e] && ts[1..] == Tokens(u[e + 1..]);
      assert StringAt(m', p, ts[0]);
    } else {
      assert m[q..limit] == "";
      assert ts == [u[..e]];
    }
  }

  /** The first token `ts[0]` stands at `token` as a string of its own, and the others are
      still to be found from `save` on. */
  predicate Cut(m: string, ts: seq<string>, token: int, save: nat, limit: nat) {
    && ts != [] && save <= limit <= |m|
    && token + |ts[0]| <= save
    && StringAt(m, token, ts[0])
    && Tokens(m[save..limit]) == ts[1..]
  }

  lemma TokensCut(u: string, e: nat)
    requires 0 < e <= |u| && (e < |u| ==> u[e] == ',') && Without(u[..e], ',')
    ensures Tokens(u) == [u[..e]] + (if e < |u| then Tokens(u[e + 1..]) else [])
  {
    assert forall k | 0 <= k < e :: u[k] == u[..e][k];
    if e < |u| {
      assert FindChar(u, ',') == e;
    } else {
      assert FindChar(u, ',') < 0;
      assert u[..e] == u;
    }
  }

  /** The first `n` tokens of `all` stand as strings at addresses `data`, all before `save`. */
  predicate Collected(m: string, data: seq<nat>, all: seq<string>, n: nat, save: nat) {
    && n <= |all| && n <= |data|
    && forall k | 0 <= k < n :: data[k] + |all[k]| <= save && StringAt(m, data[k], all[k])
  }

  /** Writing only beyond `save` leaves the strings collected so far alone. */
  lemma CollectedKept(
      m: string, m': string, data: seq<nat>, all: seq<string>, n: nat, save: nat, limit: nat, later: nat)
    requires Collected(m, data, all, n, save) && save <= later
    requires SameOutside(m, m', save, limit)
    ensures Collected(m', data, all, n, later)
  {
    forall k | 0 <= k < n
      ensures data[k] + |all[k]| <= later && StringAt(m', data[k], all[k])
    {
      assert StringAt(m, data[k], all[k]);
    }
  }

  /** The field loop. The first token exists because a frame starts with the marker, so the
      source's do-while is this while loop. */
  method SplitFields(b: array<char>, data: array<nat>, begin: nat, limit: nat, ghost all: seq<string>)
    returns (column: nat)
    requires begin <= limit < b.Length && b[limit] == NUL && data.Length == FIELDS
    requires NulFree(b[..], begin, limit) && Tokens(b[begin..limit]) == all
    modifies b, data
    ensures column == (if |all| < FIELDS then |all| else FIELDS)
    ensures Collected(b[..], data[..], all, column, limit)
    ensures SameOutside(old(b[..]), b[..], begin, limit)
  {
    column := 0;
    var token, save := StrTok(b, begin, limit, all);
    while token >= 0 && column < FIELDS
      invariant column <= FIELDS && begin <= save <= limit && NulFree(b[..], save, limit)
      invariant Collected(b[..], data[..], all, column, save)
      invariant token < 0 <==> all[column..] == []
      invariant token >= 0 ==> Cut(b[..], all[column..], token, save, limit)
      invariant SameOutside(old(b[..]), b[..], begin, limit)
      decreases FIELDS - column
    {
      data[column] := token;
      assert all[column..][0] == all[column] && all[column..][1..] == all[column + 1..];
      column := column + 1;
      ghost var m, done := b[..], save;
      assert b[save..limit] == m[save..limit];
      assert Collected(m, data[..], all, column, done);
      token, save := StrTok(b, save, limit, all[column..]);
      CollectedKept(m, b[..], data[..], all, column, done, limit, save);
    }
  }

  /** `csi_info_analysis`: cut the frame into fields in place, then read the fields that matter. */
  method CsiInfoAnalysis(b: array<char>, begin: nat, size: nat) returns (outcome: Outcome)
    requires begin + size < b.Length && b[begin + size] == NUL
    requires NulFree(b[..], begin, begin + size)
    modifies b
    ensures outcome == Analyse(old(b[begin..begin + size]))
    ensures SameOutside(old(b[..]), b[..], begin, begin + size)
  {
    ghost var all := Tokens(b[begin..begin + size]);
    var data := new nat[FIELDS];
    var column := SplitFields(b, data, begin, begin + size, all);
    if column < FIELDS {
      return Undefined;
    }
    var timestamp := ReadString(b[..], data[2]);
    ReadStringAt(b[..], data[2], all[2]);
    if |timestamp| > 31 {
      return Undefined;
    }
    ReadStringAt(b[..], data[21], all[21]);
    ReadStringAt(b[..], data[27], all[27]);
    outcome := Pushed(Message(timestamp, Atoi(ReadString(b[..], data[21])), Payload(ReadString(b[..], data[27]))));
  }
}
