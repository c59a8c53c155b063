/** What a task costs after any durations were recorded for it and for others. */
module RecordedCosts {
  import opened DownstreamCosts

  datatype Sample = Sample(task: string, duration: nat)

  /** The profiles after recording the samples in order. */
  function ProfilesAfter(samples: seq<Sample>): map<string, Profile> {
    if samples == [] then map[]
    else
      var before, s := ProfilesAfter(samples[..|samples| - 1]), samples[|samples| - 1];
      before[s.task := NextProfile(if s.task in before then before[s.task] else Profile(0, 0), s.duration)]
  }

  /** The durations recorded for one task, in order. */
  function DurationsOf(samples: seq<Sample>, task: string): seq<nat> {
    if samples == [] then []
    else
      var before, s := DurationsOf(samples[..|samples| - 1], task), samples[|samples| - 1];
      if s.task == task then before + [s.duration] else before
  }

  lemma {:induction false} ProfilesAre(samples: seq<Sample>, task: string)
    ensures task in ProfilesAfter(samples) <==> DurationsOf(samples, task) != []
    ensures task in ProfilesAfter(samples) ==> ProfilesAfter(samples)[task] == ProfileAfter(DurationsOf(samples, task))
    decreases |samples|
  {
    if samples != [] {
      var before, s := samples[..|samples| - 1], samples[|samples| - 1];
      ProfilesAre(before, task);
      if s.task == task {
        var ds := DurationsOf(before, task);
        assert (ds + [s.duration])[..|ds|] == ds;
      }
    }
  }

  lemma {:induction false} NeverRecorded(samples: seq<Sample>, task: string)
    requires forall i :: 0 <= i < |samples| ==> samples[i].task != task
    ensures DurationsOf(samples, task) == []
    decreases |samples|
  {
    if samples != [] { NeverRecorded(samples[..|samples| - 1], task); }
  }

  /** A task that was never recorded costs 100 ms. */
  lemma UnrecordedCost(samples: seq<Sample>, task: string)
    requires forall i :: 0 <= i < |samples| ==> samples[i].task != task
    ensures Cost(ProfilesAfter(samples), task) == 100
  {
    NeverRecorded(samples, task);
    ProfilesAre(samples, task);
  }

  /**
    A recorded task costs the mean of its own durations, up to truncation: never outside their range, never
    more than the mean, and after n of them at most (n - 1)/2 less.
   */
  lemma RecordedCost(samples: seq<Sample>, task: string, lo: nat, hi: nat)
    requires DurationsOf(samples, task) != []
    requires forall d :: d in DurationsOf(samples, task) ==> lo <= d <= hi
    ensures var cost, ds := Cost(ProfilesAfter(samples), task), DurationsOf(samples, task);
      && lo <= cost <= hi
      && cost * |ds| <= Sum(ds) <= cost * |ds| + |ds| * (|ds| - 1) / 2
  {
    ProfilesAre(samples, task);
    var ds := DurationsOf(samples, task);
    forall i | 0 <= i < |ds| ensures lo <= ds[i] <= hi { assert ds[i] in ds; }
    MeanStaysInRange(DurationsOf(samples, task), lo, hi);
    MeanDrift(DurationsOf(samples, task));
  }

  /** In particular a task recorded once, or always with one duration, costs that. */
  lemma SteadyCost(samples: seq<Sample>, task: string, duration: nat)
    requires DurationsOf(samples, task) != []
    requires forall d :: d in DurationsOf(samples, task) ==> d == duration
    ensures Cost(ProfilesAfter(samples), task) == duration
  {
    RecordedCost(samples, task, duration, duration);
  }
}
