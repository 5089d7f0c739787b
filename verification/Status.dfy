/** Status codes: zero is success, errors are negative (errors.h, types.h). */
module Status {
  type Status = int

  const SUCCESS: Status := 0
  const SNOCHANGE: Status := 10
  const EINVAL: Status := -1
  const EOVERLAP: Status := -2
  const EFULL: Status := -3
  const ENOMAP: Status := -4
  const ENOENT: Status := -5

  predicate IsError(s: Status) {
    s < 0
  }
}
