/**
 The registry of connected clients: each client's id and whether it has
 asked for card events. Kept in insertion order, the order in which the
 server's map yields its entries.
 */
module ClientRegistry {

  type ClientId = string

  datatype Client = Client(id: ClientId, isScanning: bool)

  type Registry = seq<Client>

  predicate Registered(r: Registry, id: ClientId) {
    exists c :: c in r && c.id == id
  }

  /** No id appears twice. */
  predicate UniqueIds(r: Registry) {
    forall i, j :: 0 <= i < j < |r| ==> r[i].id != r[j].id
  }

  /** The ids in registry order. */
  function Ids(r: Registry): (ids: seq<ClientId>)
    ensures |ids| == |r|
    ensures forall i :: 0 <= i < |r| ==> ids[i] == r[i].id
  {
    if r == [] then [] else [r[0].id] + Ids(r[1..])
  }

  /** Registers a new client at the end; the id must not be in use. */
  function Add(r: Registry, c: Client): (r': Registry)
    requires !Registered(r, c.id)
    ensures UniqueIds(r) ==> UniqueIds(r')
    ensures forall x :: x in r' <==> x in r || x == c
    ensures |r'| == |r| + 1 && r'[|r|] == c && r'[..|r|] == r
  {
    r + [c]
  }

  /** Sets the scanning flag of the client with this id; no-op when it is absent. */
  function SetScanning(r: Registry, id: ClientId, scanning: bool): (r': Registry)
    ensures |r'| == |r| && Ids(r') == Ids(r)
    ensures forall i :: 0 <= i < |r| && r[i].id != id ==> r'[i] == r[i]
    ensures forall i :: 0 <= i < |r| && r[i].id == id ==> r'[i].isScanning == scanning
    ensures !Registered(r, id) ==> r' == r
  {
    if r == [] then []
    else [if r[0].id == id then r[0].(isScanning := scanning) else r[0]] + SetScanning(r[1..], id, scanning)
  }

  /** `a` is `b` with some entries left out, the rest in their original order. */
  predicate IsSubsequence(a: Registry, b: Registry)
    decreases |b|
  {
    a == [] || (b != [] && ((a[0] == b[0] && IsSubsequence(a[1..], b[1..])) || IsSubsequence(a, b[1..])))
  }

  /** Drops the client with this id, keeping the others in order; no-op when it is absent. */
  function Remove(r: Registry, id: ClientId): (r': Registry)
    ensures forall x :: x in r' <==> x in r && x.id != id
    ensures IsSubsequence(r', r)
    ensures !Registered(r', id)
    ensures |r'| <= |r|
    ensures UniqueIds(r) ==> UniqueIds(r')
    ensures !Registered(r, id) ==> r' == r
  {
    if r == [] then []
    else if r[0].id == id then
      var rest := Remove(r[1..], id);
      SubsequenceSkip(r, rest);
      rest
    else
      var rest := Remove(r[1..], id);
      SubsequenceKeep(r, rest);
      if UniqueIds(r) then UniqueCons(r, rest); [r[0]] + rest else [r[0]] + rest
  }

  /** The head of a registry without duplicates, put in front of unique entries drawn from its tail, stays unique. */
  lemma UniqueCons(r: Registry, rest: Registry)
    requires r != [] && UniqueIds(r) && UniqueIds(rest)
    requires forall x :: x in rest ==> x in r[1..]
    ensures UniqueIds([r[0]] + rest)
  {
    forall i, j | 0 <= i < j < |[r[0]] + rest| ensures ([r[0]] + rest)[i].id != ([r[0]] + rest)[j].id {
      if i == 0 {
        var x := rest[j - 1];
        assert x in r[1..];
        var k :| 0 <= k < |r[1..]| && r[1..][k] == x;
        assert r[k + 1] == x;
      }
    }
  }

  /** Leaving out the head keeps a subsequence of the tail a subsequence. */
  lemma SubsequenceSkip(r: Registry, rest: Registry)
    requires r != [] && IsSubsequence(rest, r[1..])
    ensures IsSubsequence(rest, r)
  {
  }

  /** Keeping the head in front of a subsequence of the tail gives a subsequence. */
  lemma SubsequenceKeep(r: Registry, rest: Registry)
    requires r != [] && IsSubsequence(rest, r[1..])
    ensures IsSubsequence([r[0]] + rest, r)
  {
    assert ([r[0]] + rest)[1..] == rest;
  }

  /** Removing twice is removing once. */
  lemma RemoveIdempotent(r: Registry, id: ClientId)
    ensures Remove(Remove(r, id), id) == Remove(r, id)
  {
  }
}
