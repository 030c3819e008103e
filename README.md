# Traffic Manager executable: option parsing and the emergency actor sweep

This project models the two sequential pieces of the Traffic Manager's
executable (`PipelineExecutable.cpp`) and proves properties about them.

- **The command line** (module `CommandLine`, `command_line.dfy`). `main` loops over
  the argument vector and fills in a configuration. The configuration has four
  fields: the randomization seed (default -1), the target traffic amount
  (default 0), the host (default `"localhost"`) and the port (default 2000).
  Each of `-n`, `-s`, `-p` and `--host` consumes the argument after it. A
  numeric value that `std::stoi` rejects leaves its field as it was. Every other
  argument is skipped. A negative final seed selects clock-based seeding;
  otherwise the seed is used as given. A lone `-h` prints the help text instead
  of doing any of this. The loop is the method `ParseOptions`, written with the
  source's four tests in the source's order. It is proved equal to the function
  `Parse`, and the properties are lemmas about `Parse`. Those lemmas go through
  an independent description: the positions the loop reads as options
  (`Visited`), and the last write into each field (`LastWrite`).
- **The terminate handler** (module `FaultTrap`, `fault_trap.dfy`). The handler
  first reads the shutdown flag. If the flag is set, it does nothing. Otherwise
  it calls `Destroy` on every non-null, alive actor of the published list, in
  list order, and exits with status 1. The list and the remote state of its
  actors form the class `Registry`. Its `destroyed` field logs each `Destroy`
  call by index. `Handler` is proved against the specification functions
  `Swept` and `LiveIndices`, and lemmas characterise both. Each entry carries
  its own copy of its actor's remote state. This is sound because the list
  holds the actors spawned for the session, each one once. The class
  invariant `Valid` (`DistinctActors`) states this, and the constructor
  requires it.

`std::stoi` is a parameter `stoi: string -> Option<int>`. `None` stands for the
exception it throws. Storing a converted value into a `uint` field (the target
amount and the port) is modelled as reduction modulo 2^32 (`ToUint`).

An unparseable numeric option does not reset its field to the default: the
field keeps its previous value, which may come from an earlier occurrence of
the same option (`FailedValueChangesNothing`, `LastSuccessfulOccurrenceWins`).

## Model

| member | source | states |
|---|---|---|
| `CommandLine.ToUint` | TrafficManager/source/pipeline/executable/PipelineExecutable.cpp:84 | storing an `int` into a `uint` keeps values in [0, 2^32) unchanged and adds 2^32 to values in [-2^32, 0); the result is always below 2^32 |
| `CommandLine.Apply` | TrafficManager/source/pipeline/executable/PipelineExecutable.cpp:66-92 | one option with its value writes only that option's field: `-n`/`-p` write the converted value taken as a `uint`, `-s` writes it as is, `--host` writes the text verbatim; an unconvertible value writes nothing; every other field is unchanged |
| `CommandLine.ParseOptions` | TrafficManager/source/pipeline/executable/PipelineExecutable.cpp:58-93 | the loop, starting from the defaults at index 1, ends with exactly the configuration `Parse` describes, provided every option it reads as an option has an argument after it |
| `CommandLine.VisitedShape` | TrafficManager/source/pipeline/executable/PipelineExecutable.cpp:63-93 | the indices the loop reads as options start at 1, stay inside `argv`, advance by 2 past an option and by 1 past anything else, and strictly increase (so the loop terminates) |
| `CommandLine.ValueNeverReadAsOption` | TrafficManager/source/pipeline/executable/PipelineExecutable.cpp:66-92 | the argument after an option is consumed as its value and is never itself read as an option |
| `CommandLine.EveryArgumentAccounted` | TrafficManager/source/pipeline/executable/PipelineExecutable.cpp:63-93 | every argument after the program name is either read as an option (or skipped) or consumed as the value of the option just before it |
| `CommandLine.ScanIsLastWrite` | TrafficManager/source/pipeline/executable/PipelineExecutable.cpp:63-93 | each field ends with the last value written into it by an option the loop read, or keeps what it held before the loop |
| `CommandLine.LastSuccessfulOccurrenceWins` | TrafficManager/source/pipeline/executable/PipelineExecutable.cpp:66-92 | when an option repeats, the last occurrence whose value converts decides its field (every `--host` occurrence converts) |
| `CommandLine.UnsetFieldKeepsDefault` | TrafficManager/source/pipeline/executable/PipelineExecutable.cpp:58-61 | a field that no occurrence of its option sets successfully keeps its default |
| `CommandLine.FailedValueChangesNothing` | TrafficManager/source/pipeline/executable/PipelineExecutable.cpp:66-88 | a numeric option whose value does not convert changes no field, and parsing carries on after its value |
| `CommandLine.ScanWithoutOptions` | TrafficManager/source/pipeline/executable/PipelineExecutable.cpp:63-93 | with none of the four options among the remaining arguments, the loop changes nothing and needs no values |
| `CommandLine.DefaultsWithoutOptions` | TrafficManager/source/pipeline/executable/PipelineExecutable.cpp:58-61 | with no recognised option, the configuration is seed -1, target amount 0, host "localhost", port 2000 |
| `CommandLine.ScanDependsOnSuffix` | TrafficManager/source/pipeline/executable/PipelineExecutable.cpp:63-93 | what the loop does from an index on depends only on the arguments from that index on |
| `CommandLine.UnrecognisedArgumentIgnored` | TrafficManager/source/pipeline/executable/PipelineExecutable.cpp:63-93 | removing an unrecognised argument that the loop reads as an option does not change the configuration |
| `CommandLine.DashHIgnored` | TrafficManager/source/pipeline/executable/PipelineExecutable.cpp:53-57 | outside the lone-`-h` case, a `-h` is an unrecognised argument: removing it does not change the configuration |
| `CommandLine.OptionAsValueExample` | TrafficManager/source/pipeline/executable/PipelineExecutable.cpp:66-80 | for `-n -s 5`, the loop reads only `-n` and `5`; `-s` is the unconvertible value of `-n`, and the configuration stays the defaults |
| `CommandLine.ChooseSeeding` | TrafficManager/source/pipeline/executable/PipelineExecutable.cpp:95-99 | clock seeding exactly when the final seed is negative; otherwise the seed itself |
| `CommandLine.Startup` | TrafficManager/source/pipeline/executable/PipelineExecutable.cpp:53-99 | help is shown if and only if there is exactly one argument and it is `-h`; otherwise a session starts with the parsed configuration and the seeding chosen from its seed |
| `FaultTrap.LiveIndicesExact` | TrafficManager/source/pipeline/executable/PipelineExecutable.cpp:38-42 | the sweep's `Destroy` targets are exactly the non-null, alive entries, each once, in list order |
| `FaultTrap.SweptEntries` | TrafficManager/source/pipeline/executable/PipelineExecutable.cpp:38-42 | after the sweep no non-null entry is alive, null and dead entries are untouched, and a destroyed entry keeps its identity |
| `FaultTrap.SweptHasNothingLive` | TrafficManager/source/pipeline/executable/PipelineExecutable.cpp:39 | a second sweep over the swept list would issue no `Destroy`, because of the aliveness test |
| `FaultTrap.DistinctActorsPairwise` | TrafficManager/source/pipeline/executable/PipelineExecutable.cpp:129-131 | the invariant on the published list holds exactly when no two different non-null entries name the same actor |
| `FaultTrap.EachActorDestroyedOnce` | TrafficManager/source/pipeline/executable/PipelineExecutable.cpp:38-42 | with distinct actors in the list, the sweep's `Destroy` calls go to distinct actors: none is destroyed twice in one sweep |
| `FaultTrap.SweptKeepsIds` | TrafficManager/source/pipeline/executable/PipelineExecutable.cpp:38-42 | the sweep names the same set of actors as before |
| `FaultTrap.SweptKeepsDistinct` | TrafficManager/source/pipeline/executable/PipelineExecutable.cpp:38-42 | actors that are distinct before the sweep stay distinct after it |
| `FaultTrap.ClearAliveKeepsDistinct` | TrafficManager/source/pipeline/executable/PipelineExecutable.cpp:40 | destroying one entry's actor keeps the actors of the list distinct |
| `FaultTrap.Registry.constructor` | TrafficManager/source/pipeline/executable/PipelineExecutable.cpp:129-131 | publishing the spawned actors, which must be distinct: the list is as given, the invariant holds and nothing has been destroyed |
| `FaultTrap.Registry.Destroy` | TrafficManager/source/pipeline/executable/PipelineExecutable.cpp:40 | destroying a non-null entry clears only its aliveness, logs its index and keeps the distinct-actors invariant |
| `FaultTrap.Registry.SweepEntry` | TrafficManager/source/pipeline/executable/PipelineExecutable.cpp:39-40 | one iteration of the sweep: entry `k` is destroyed exactly when it is live, after which the first `k + 1` entries are swept and logged; the invariant is kept |
| `FaultTrap.Registry.Handler` | TrafficManager/source/pipeline/executable/PipelineExecutable.cpp:32-48 | keeps the distinct-actors invariant; with `quit` set, nothing changes and the handler returns; otherwise `Destroy` is issued on exactly the live entries, in list order, the list becomes its swept form, and the outcome is exit status 1 |

## Left out

- Signal installation (`sigaction`, `got_signal`) and the atomic `quit` as a cross-thread primitive: the handler reads `quit` as a plain boolean input. Asynchronous signal context has no sequential model.
- The race between the terminate handler and the graceful shutdown path: the source has no exactly-once gate, so the model claims no "reclamation at most once". `SweptHasNothingLive` is about a sequential re-run only.
- Handler, LiveIndicesExact: entries are assumed to name distinct actors (the constructor's requirement and `Valid`), because the spawning step returns each new actor once. The model keeps one state per entry and is not stated for a list that names the same actor twice; what the remote `IsAlive` and `Destroy` calls do on such a list lies outside the source modelled here.
- The handler is modelled only after the actor list is published (line 131). It is installed at line 51, and before publication the list pointer is still null. A fault before that point, for example an unreachable simulator at lines 101-102 or a failure in `GetMap`, `GetTopology` or `spawn_traffic`, would make the handler dereference a null pointer at line 38 instead of sweeping and exiting with status 1.
- What happens after the handler returns with `quit` set (the C++ runtime then aborts the process): the model stops at `Returned`.
- A failing or throwing remote `Destroy`: the model's `Destroy` always succeeds. The remote `IsAlive` query is modelled by reading the entry's `alive` field.
- The polling loop (`sleep`, `GetSettings`, the timeout exception), `Pipeline::Start`/`Stop` and `destroy_traffic`: network I/O and an opaque multithreaded subsystem.
- Client and world construction, the map and topology, `spawn_traffic` and `read_core_count`: calls into libraries that are not part of this model.
- The float constants of the PID and speed parameters.
- `std::srand` and `std::time`: only the choice between clock and fixed seeding is modelled. Passing the seed to `run_pipeline` as a `uint` (line 104) is not modelled.
- The exact behaviour of `std::stoi` (prefix parsing, `out_of_range`): it is an uninterpreted partial function.
- An option as the last argument is undefined behaviour in the source (`argv[argc]` is null). `ValuesPresent` is a precondition instead; it asks for a value only after arguments the loop actually reads as options.
- Printing the help text and all logging calls.
