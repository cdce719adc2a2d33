/** The record types of src/model.rs, plus the sort key that src/app.rs refers to. */
module Model {

  /** Possible states of a process (src/model.rs:2-8); an unrecognised status letter is kept verbatim. */
  datatype ProcessState = Running | Sleeping | Zombie | Stopped | Unknown(c: char)

  /** Information held about one process (src/model.rs:10-14); `pid` is a `u64` in the source. */
  datatype ProcessInfo = ProcessInfo(pid: nat, name: string, state: string)

  /** The column the process table is sorted by, as selected by the keys of src/app.rs:33-36. */
  datatype SortBy = Cpu | Memory | Pid | Name
}
