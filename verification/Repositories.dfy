/**
 Finding the live image of a configured one (ContainsImage in registry-scanner/pkg/image/image.go) by its repository.
 */
module Repositories {
  import opened Sequences

  datatype Repository = Repository(registry: string, name: string)

  /** The index of the first image of the first repository that is live: Kustomize overrides are asked for first. */
  function FindLive(lives: seq<Repository>, wanted: seq<Repository>): (k: nat)
    ensures k <= |lives|
    ensures k < |lives| ==> lives[k] in wanted
    ensures k == |lives| ==> forall r :: r in wanted ==> r !in lives
  {
    if wanted == [] then |lives|
    else
      var k := IndexFrom(lives, wanted[0], 0);
      if k < |lives| then k else FindLive(lives, wanted[1..])
  }

  lemma {:induction false} FindLiveOfConcat(lives: seq<Repository>, a: seq<Repository>, b: seq<Repository>)
    ensures FindLive(lives, a + b) == if FindLive(lives, a) < |lives| then FindLive(lives, a) else FindLive(lives, b)
    decreases |a|
  {
    if a == [] {
      assert a + b == b;
    } else {
      assert (a + b)[1..] == a[1..] + b;
      FindLiveOfConcat(lives, a[1..], b);
    }
  }

  lemma FindLiveOne(lives: seq<Repository>, r: Repository)
    ensures FindLive(lives, [r]) == IndexFrom(lives, r, 0)
  {
  }

  /** What is found is the first live image of the first wanted repository that has one. */
  lemma {:induction false} FindLiveIs(lives: seq<Repository>, wanted: seq<Repository>, j: nat)
    requires j < |wanted| && wanted[j] in lives && forall i :: 0 <= i < j ==> wanted[i] !in lives
    ensures var k := FindLive(lives, wanted);
            k < |lives| && lives[k] == wanted[j] && forall i :: 0 <= i < k ==> lives[i] != wanted[j]
    decreases j
  {
    if j > 0 {
      assert wanted[0] !in lives;
      assert wanted[1..][j - 1] == wanted[j];
      FindLiveIs(lives, wanted[1..], j - 1);
    }
  }
}
