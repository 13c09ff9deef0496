# cleanup-events, modelled in Dafny

`cleanup-events` is a command-line tool that deletes aged Kubernetes Event
objects in every namespace of a cluster. All of its logic is in `main.go`.
The tool checks its flags first. It then lists the namespaces. For each
namespace in turn, `cleanupEvents` lists the events, keeps the names of those
whose `LastTimestamp` is strictly before `now - duration`, and deletes them one
by one. It stops that namespace at the first failed delete, and it prints
progress after every 500 deletions. The run fails if any namespace failed.

This model keeps that decision procedure and leaves out the cluster client.
Each list answer, clock reading and delete answer is an input (an *oracle*).
Every step is a pure function of those inputs. The properties of the loops
are proved by induction in separate lemmas.

- `basics.dfy` (`Basics`): outcome and result types, list answers, and Go's
  `time.Duration` as a 64-bit nanosecond count. Instants are nanoseconds since
  Go's zero time. `Before` and `now.Add(-duration)` are included; the latter
  uses 64-bit negation.
- `ordering.dfy` (`Ordering`): strictly increasing position sequences. A
  lemma shows that such a sequence is fixed by its set of elements.
- `startup.dfy` (`Startup`): the duration and kubeconfig checks.
- `events.dfy` (`Events`): event selection, and the positions of the stale
  events.
- `cleanup.dfy` (`Cleanup`): the delete loop and `cleanupEvents` for one
  namespace.
- `driver.dfy` (`Driver`): the namespace loop, error aggregation, and the
  whole run from validation to the final verdict.

Some behaviour of `main.go` that the model keeps:

- The duration must be strictly greater than 30 seconds. A value of exactly
  30 seconds is rejected.
- Staleness is judged on `LastTimestamp` alone. An event whose
  `LastTimestamp` was never set holds the zero time. Such an event is selected
  whenever the cutoff lies after the zero time, which holds for every accepted
  duration and every clock reading after 1970
  (`Startup.AcceptedCutoffFollowsZeroTime`).
- `time.Now()` is read once per namespace, after its events are listed. So
  each namespace's oracle carries its own clock reading, and the cutoff can
  differ from one namespace to the next.
- The loop visits every namespace even after one fails, and the run ends in a
  panic if any of them failed.
- A failed delete ends that namespace's cleanup at once: it is not retried,
  and a "not found" answer is a failure like any other.

## Model

| member | source | states |
|---|---|---|
| `Basics.Neg64` | main.go:77 | Go's unary minus on a 64-bit duration: it negates every value except the most negative one, which it leaves unchanged |
| `Basics.Cutoff` | main.go:77 | the cutoff lies exactly `duration` before the clock reading, for every duration other than the most negative 64-bit value |
| `Startup.Getenv` | main.go:26 | a set variable reads as its value and an unset one as the empty string, so a non-empty result is always the value the variable is set to |
| `Startup.GetenvAfterSet` | main.go:26 | setting a variable changes what is read for that variable, and for no other |
| `Startup.Validate` | main.go:23-31 | the run is accepted iff the duration exceeds 30 s and the flag or the `KUBECONFIG` variable is non-empty; a short duration is reported first, whatever the kubeconfig; the accepted path is the flag when non-empty, else the environment value, and it is never empty |
| `Startup.KubeconfigFromEnvironment` | main.go:23-31 | with an accepted duration and an empty kubeconfig flag, a non-empty `KUBECONFIG` variable is accepted and becomes the kubeconfig the run uses |
| `Startup.AcceptedCutoffFollowsZeroTime` | main.go:23-25 | with an accepted duration and a clock reading after 1970, the zero time is strictly before the cutoff, and the cutoff is strictly before the clock reading |
| `Events.IsStale` | main.go:80 | an event is stale exactly when it is stamped strictly before the cutoff: one stamped at the cutoff is not, and one whose last timestamp was never set is stale for every cutoff after the zero time |
| `Events.StalePositions` | main.go:79-81 | the positions of the stale events form an increasing sequence that holds position i exactly when event i's last timestamp is strictly before the cutoff |
| `Events.Select` | main.go:77-83 | the selected names are the names of the stale events, one per stale event, in listing order |
| `Events.StalePositionsUnique` | main.go:79-83 | any increasing sequence of positions that holds exactly the stale positions equals `StalePositions`, so the selection is fully determined by the staleness test |
| `Events.SelectionBoundary` | main.go:80 | an event stamped exactly at the cutoff is not selected, and one stamped earlier is selected (`Before` is strict) |
| `Events.UnsetTimestampSelected` | main.go:80-81 | an event whose last timestamp is the zero time is selected whenever the cutoff is after the zero time |
| `Events.SelectAppend` | main.go:79-83 | selection decides each event on its own: selecting from a concatenation gives the concatenation of the selections |
| `Cleanup.DeleteLoop` | main.go:89-96 | the loop sends no more calls than there are names. It succeeds only after sending every name, and a failure names the last event it sent a delete for |
| `Cleanup.DeleteLoopBehaviour` | main.go:89-96 | the delete calls are a prefix of `toDelete`, in order. The loop succeeds iff every delete succeeds. On failure, the last call is the first failed delete and all earlier calls succeeded. Progress is reported after the m-th deletion iff m is a multiple of 500, in increasing order, (done + successes)/500 - done/500 times |
| `Cleanup.Selected` | main.go:77-83 | the names selected from a successful listing at the cutoff `now - duration`: the k-th is the name of the k-th stale listed event, and there are no more of them than listed events |
| `Cleanup.CleanupEvents` | main.go:70-75 | a failed event listing returns an error, with no delete call and no progress report |
| `Cleanup.ListedCleanup` | main.go:77-98 | after a successful listing, an empty selection returns success with no delete call; otherwise the delete calls, the result and the progress reports are those of the delete loop over the names selected at the cutoff `now - duration` |
| `Cleanup.IssuedAreStale` | main.go:78-92 | the k-th delete call goes to the k-th stale listed event, so every deleted event is stale |
| `Cleanup.FullSuccessProgress` | main.go:85-97 | a successful cleanup listed its events, sent exactly the selected names, and reported progress `len(toDelete) / 500` times |
| `Cleanup.TwelveHundredDeletions` | main.go:89-95 | 1200 successful deletions send all 1200 names and report progress at 500 and 1000, and nowhere else |
| `Driver.FailedPositions` | main.go:57-59 | the positions of the failed namespaces form an increasing sequence that holds position i exactly when namespace i's cleanup failed |
| `Driver.CleanupPrefix` | main.go:54-60 | after n iterations of the namespace loop there are n cleanup results and at most n recorded errors |
| `Driver.LoopRecordsFailures` | main.go:55-59 | the recorded errors are one per failed namespace, in namespace order, each with that namespace's name and the cause of its failure |
| `Driver.ResultsGrowByOne` | main.go:55-57 | each iteration of the namespace loop appends the cleanup of the next namespace, with its own oracle, to the results so far |
| `Driver.NamespaceCleanedUp` | main.go:55-57 | the i-th result is the cleanup of the i-th namespace with its own oracle, whatever happened to the namespaces before it |
| `Driver.NoErrorsIffAllPass` | main.go:54-61 | the recorded error list is empty exactly when no namespace cleanup failed |
| `Driver.CleanupNamespaces` | main.go:54-61 | the loop over all namespaces gives one result per namespace, the i-th being the cleanup of namespace i with its own oracle; it records one error per failed namespace, in order; the error list is empty iff every cleanup succeeded |
| `Driver.Run` | main.go:23-67 | a rejected startup, or a failed namespace listing, aborts before any namespace is cleaned up. Otherwise there is one result per listed namespace. The run then fails iff some namespace failed, and it carries one error per failed namespace, in order |
| `Driver.RunCleansEveryNamespace` | main.go:49-60 | an accepted run with a namespace list cleans up every listed namespace, each with its own oracle and the validated duration |

## Left out

- Flag parsing and flag defaults (main.go:16-21) are left out. The duration and the kubeconfig flag are inputs, and the environment is a map read the way `os.Getenv` reads it.
- Building the client configuration from the kubeconfig file and creating the clientset (main.go:33-47) are left out. These are foreign library calls, and their failures are not modelled.
- QPS and Burst (main.go:39-41) are left out. They are passed straight through to the client library.
- The context, and the List and Delete network calls, are replaced by oracles. A namespace oracle must answer at least one delete call per listed event (`Cleanup.Answers`). This only shapes the oracle: no behaviour of the tool is excluded by it.
- `time.Now()` is replaced by a clock reading in each namespace oracle. Go's `Time.Add` saturates only far outside any real clock reading, so that case is not modelled.
- Printing is left out: the namespace header, the counts line, the progress text, the final summary and the printed error list (main.go:56, 62-64, 67, 88, 94, 97). Only the deletion counts at which progress is reported are modelled. The contents of the wrapped error messages are reduced to the namespace, the failed event name and the kind of failure.
- Panics (main.go:24, 29, 52, 65) are modelled as a failed run outcome carrying the reason.
