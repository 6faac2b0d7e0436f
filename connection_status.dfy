/** The BigQuery connection card and the setup flags the explorer page
    reads: both are decided from the status query and the dataset-list
    query. */
module ConnectionStatus {
  import opened Wrappers

  /** The body of the status query: whether the connection settings are
      present. */
  datatype Status = Status(configured: bool)

  /** The two queries as the component sees them. `status` and `datasets`
      are `None` while their query has no data; `failed` is the dataset
      query's error being set. */
  datatype Queries = Queries(
    status: Option<Status>,
    isStatusLoading: bool,
    datasets: Option<seq<string>>,
    isDatasetsLoading: bool,
    failed: bool)

  /** `status?.configured` read as a boolean (undefined is falsy). */
  predicate StatusConfigured(q: Queries) {
    q.status.Some? && q.status.value.configured
  }

  /** `isStatusLoading || (status?.configured && isDatabasesLoading)`. */
  predicate IsLoading(q: Queries) {
    q.isStatusLoading || (StatusConfigured(q) && q.isDatasetsLoading)
  }

  /** `status?.configured ?? false`. */
  predicate IsConfigured(q: Queries) {
    if q.status.Some? then q.status.value.configured else false
  }

  /** `isConfigured && !error && databases !== undefined`. */
  predicate IsConnected(q: Queries) {
    IsConfigured(q) && !q.failed && q.datasets.Some?
  }

  /** The setup flags: nothing is configured without a status; being
      connected needs the settings, no error and a loaded list; the status
      query's loading always counts and the dataset query's only once the
      settings are known to be present. */
  lemma SetupFlags(q: Queries)
    ensures q.status.None? ==> !IsConfigured(q) && !IsConnected(q)
    ensures IsConnected(q) ==> IsConfigured(q) && !q.failed && q.datasets.Some?
    ensures q.isStatusLoading ==> IsLoading(q)
    ensures !IsConfigured(q) ==> (IsLoading(q) <==> q.isStatusLoading)
    ensures IsConfigured(q) ==> (IsLoading(q) <==> q.isStatusLoading || q.isDatasetsLoading)
  {
  }

  /** What the card renders. */
  datatype View =
    | LoadingPlaceholder
    | SetupRequired
    | ConnectionError
    | Connected(datasetCount: nat)

  /** The chain of early returns in `ConnectionStatus`. */
  function ViewOf(q: Queries): View {
    if IsLoading(q) then LoadingPlaceholder
    else if !StatusConfigured(q) then SetupRequired
    else if q.failed then ConnectionError
    else Connected(if q.datasets.Some? then |q.datasets.value| else 0)
  }

  /** The checks run in order: loading, then missing settings, then the
      dataset query's error; only a configured, error-free state that is
      not loading shows the connected card, with the number of datasets
      loaded (zero when the list is absent). */
  lemma ViewPrecedence(q: Queries)
    ensures ViewOf(q).LoadingPlaceholder? <==> IsLoading(q)
    ensures ViewOf(q).SetupRequired? <==> !IsLoading(q) && !IsConfigured(q)
    ensures ViewOf(q).ConnectionError? <==> !IsLoading(q) && IsConfigured(q) && q.failed
    ensures ViewOf(q).Connected? <==> !IsLoading(q) && IsConfigured(q) && !q.failed
    ensures ViewOf(q).Connected? ==>
      ViewOf(q).datasetCount == if q.datasets.Some? then |q.datasets.value| else 0
  {
  }

  /** The card and the flags agree once nothing is loading: a connected
      flag means the connected card with the list's length, and the
      connected card without a list is the one case where the flag is
      still false. */
  lemma CardAgreesWithFlags(q: Queries)
    requires !IsLoading(q)
    ensures IsConnected(q) ==> ViewOf(q) == Connected(|q.datasets.value|)
    ensures ViewOf(q).Connected? && !IsConnected(q) ==> q.datasets.None?
    ensures !IsConfigured(q) <==> ViewOf(q) == SetupRequired
  {
  }
}
