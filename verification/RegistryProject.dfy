/** Where a project's registry answers come from: roots with a history of publishes, read by the client. */
module RegistryProject {
  import opened RegistryModel
  import opened RegistryHistory
  import opened RegistryClient
  import opened ResolverProject

  /** The roots by name, how digests print, and where the archive of a record is unpacked. */
  datatype Registries = Registries(
    codec: Codec,
    attempts: string -> seq<Attempt>,
    hex: Digest -> string,
    checkout: Record -> string)

  /** Every answer is a record that the client found in the root it names, unpacked. */
  ghost predicate Answers(p: Project, x: Registries)
  {
    forall registry, name, version | p.registry(registry, name, version).Some? ::
      FromRecord(x, name, version, p.registry(registry, name, version).value)
  }

  ghost predicate FromRecord(x: Registries, name: string, version: string, m: Materialized)
  {
    var found := Lookup(History(x.codec, x.attempts(m.root)), name, version);
    found.Ok? && m.sha256 == x.hex(found.value.sha256) && m.snapshot == x.checkout(found.value)
  }

  /** The name and the version of a release are read from its archive. */
  ghost predicate ArchiveNamesRelease(attempts: seq<Attempt>)
  {
    forall i, j | 0 <= i < |attempts| && 0 <= j < |attempts| && attempts[i].request.blob == attempts[j].request.blob ::
      attempts[i].request == attempts[j].request
  }

  ghost predicate PublishedCollision(c: Codec, attempts: seq<Attempt>)
  {
    exists i, j :: 0 <= i < |attempts| && 0 <= j < |attempts|
                   && CollidesWith(c, attempts[i].request.blob, attempts[j].request.blob)
  }

  lemma {:induction false} FirstMatchIsListed(records: seq<Record>, name: string, version: string)
    requires FirstMatch(records, name, version).Some?
    ensures FirstMatch(records, name, version).value in records
  {
    if !Matches(records[0], name, version) {
      FirstMatchIsListed(records[1..], name, version);
    }
  }

  lemma LookupIsListed(r: Root, name: string, version: string)
    requires Lookup(r, name, version).Ok?
    ensures Lookup(r, name, version).value in RecordsOf(r, name)
  {
    FirstMatchIsListed(r.index[name], name, version);
  }

  /** Two records of one root with one digest are one record, or two published archives collide. */
  lemma OneRecordPerDigest(c: Codec, attempts: seq<Attempt>, p: string, e: Record, p': string, e': Record)
    requires ArchiveNamesRelease(attempts)
    requires e in RecordsOf(History(c, attempts), p) && e' in RecordsOf(History(c, attempts), p') && e.sha256 == e'.sha256
    ensures e == e' || PublishedCollision(c, attempts)
  {
    hide History, RecordsOf, PublishedCollision;
    var i := RecordsArePublished(c, attempts, p, e);
    var j := RecordsArePublished(c, attempts, p', e');
    if attempts[i].request.blob != attempts[j].request.blob {
      CollisionShown(c, attempts, i, j);
    }
  }

  lemma CollisionShown(c: Codec, attempts: seq<Attempt>, i: nat, j: nat)
    requires i < |attempts| && j < |attempts| && CollidesWith(c, attempts[i].request.blob, attempts[j].request.blob)
    ensures PublishedCollision(c, attempts)
  {
  }

  /** What the resolver takes for granted of registries holds, or some root exhibits a collision. */
  lemma PublishedOneRelease(p: Project, x: Registries)
    requires Answers(p, x) && forall a, b :: x.hex(a) == x.hex(b) ==> a == b
    requires forall registry :: ArchiveNamesRelease(x.attempts(registry))
    ensures OneReleasePerDigest(p) || exists registry :: PublishedCollision(x.codec, x.attempts(registry))
  {
    hide History, Lookup, ArchiveNamesRelease, PublishedCollision;
    if forall registry :: !PublishedCollision(x.codec, x.attempts(registry)) {
      forall r, n, v, r', n', v' | p.registry(r, n, v).Some? && p.registry(r', n', v').Some?
        ensures
          var m, m' := p.registry(r, n, v).value, p.registry(r', n', v').value;
          m.root == m'.root && m.sha256 == m'.sha256 ==> m.snapshot == m'.snapshot
      {
        var m, m' := p.registry(r, n, v).value, p.registry(r', n', v').value;
        assert FromRecord(x, n, v, m) && FromRecord(x, n', v', m');
        if m.root == m'.root && m.sha256 == m'.sha256 {
          var root := History(x.codec, x.attempts(m.root));
          var e, e' := Lookup(root, n, v).value, Lookup(root, n', v').value;
          LookupIsListed(root, n, v);
          LookupIsListed(root, n', v');
          OneRecordPerDigest(x.codec, x.attempts(m.root), n, e, n', e');
        }
      }
    }
  }
}
