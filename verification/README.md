# Pseudo character driver: I/O engine model

A Dafny model of the pseudo character driver `pcd`. The driver exposes one
device backed by a fixed 512-byte memory buffer (`PCD_MEM_SIZE`). Its file
operations are read, write and lseek, which act on that buffer and on the
open file's position `f_pos`. It also has trivial open and release operations.

- `pcd_read` cuts the request down to the bytes left before the end of the
  buffer. It copies that slice to the user region and advances `f_pos` by the
  number of bytes copied. At the end of the buffer it returns 0.
- `pcd_write` cuts the request down in the same way. If nothing is left to
  write it fails with `-ENOMEM`. Otherwise it copies the user bytes over the
  buffer at `f_pos` and advances `f_pos`.
- `pcd_lseek` computes a candidate position for `SEEK_SET`, `SEEK_CUR` or
  `SEEK_END`. It accepts the candidate only if it lies in `[0, 512]`.
  Otherwise, and for any other `whence`, it fails with `-EINVAL`.
- A failing `copy_to_user` / `copy_from_user` makes read or write fail with
  `-EFAULT`. The position does not move. Because `copy_from_user` copies
  straight into the device buffer and zero-fills every byte it could not
  copy, a failed write leaves the clamped window of the buffer zeroed.

The model is the single module `Pcd` in `pcd.dfy`, in two layers:

- **Specification functions on values.** `Clamp`, `ReadSpec`, `WriteSpec`,
  `LseekSpec`, `Candidate`, `Step` and `Run` say what each call returns and
  which buffer and position it leaves. The lemmas are stated over them.
- **The driver as classes.** `Device` holds the buffer as an
  `array<bv8>`, written in place by `Write`. `File` holds the position, which
  `Read`, `Write` and `Lseek` update. Each method is proved to return, and to
  leave, exactly what its specification function gives for the old state.

The user region's accessibility is a parameter `fault` of read and write,
because the kernel copy helpers are calls into code outside the driver.
A copy of `n` bytes fails exactly when `fault` holds and `n > 0`: a zero-byte
copy touches no user memory. For write, the user region is the sequence
`src` of `count` bytes. Results are the datatype `Outcome`: `Ok(n)` or
`Err(ENOMEM | EFAULT | EINVAL)`. `ReturnValue` maps an outcome to the C return
value, which is the count or position, or minus the Linux error number.
`whence` is an integer (`SEEK_SET` = 0, `SEEK_CUR` = 1, `SEEK_END` = 2), so the
default branch of the switch is part of the model.

## Model

| member | source | states |
|---|---|---|
| `Pcd.Number` | pcd/pcd.c:195-197 | every error the driver returns has a positive Linux error number, so the C return value is its negation |
| `Pcd.ReturnValue` | pcd/pcd.c:163-175 | the C return value is non-negative exactly for a successful call, and then equals the count or position |
| `Pcd.ReturnValueInjective` | pcd/pcd.c:164-174 | distinct outcomes give distinct C return values, so a caller can always tell the error from the count |
| `Pcd.Clamp` | pcd/pcd.c:156-159 | the clamped count is at most the request and at most the room left before the end of the buffer, and equals one of the two, i.e. it is `min(count, 512 - pos)` |
| `Pcd.ReadSpec` | pcd/pcd.c:150-175 | a read returns `n = min(count, 512 - pos)`, delivers exactly `buf[pos .. pos+n)` and advances the position by exactly `n`; it fails with EFAULT, position unchanged and nothing delivered, exactly when the user region faults and there is a byte to copy |
| `Pcd.ReadAtEndReturnsZero` | pcd/pcd.c:141-159 | a read at position 512 returns 0 with no error, delivers nothing and leaves the position at 512, whatever the request |
| `Pcd.WriteSpec` | pcd/pcd.c:185-212 | a write returns ENOMEM exactly when the position is 512 or the request is empty, EFAULT exactly when there is room and the user region faults, and otherwise writes `n = min(count, 512 - pos) > 0` bytes: `buf[pos .. pos+n)` becomes the source prefix, every other byte is unchanged and the position advances by `n`; a failing write keeps the position; ENOMEM keeps the buffer, while EFAULT zeroes exactly `buf[pos .. pos+n)` and keeps every other byte |
| `Pcd.LseekSpec` | pcd/pcd.c:224-260 | an lseek leaves the position inside `[0, 512]`; on success it returns the new position; on failure it returns EINVAL and the position is unchanged; it succeeds only for `SEEK_SET`, `SEEK_CUR` or `SEEK_END` |
| `Pcd.LseekAcceptsExactlyInRange` | pcd/pcd.c:231-254 | an lseek succeeds if and only if the candidate `offset`, `pos + offset` or `512 + offset` of a known `whence` lies in `[0, 512]`, and then the position is that candidate |
| `Pcd.LseekSetBounds` | pcd/pcd.c:232-237 | `SEEK_SET` to 512 succeeds with position 512; `SEEK_SET` to 513 or to -1 fails with EINVAL and keeps the position |
| `Pcd.Step` | pcd/pcd.c:150-260 | any read, write or lseek from a valid state leaves a 512-byte buffer and a position in `[0, 512]`; reads and lseeks leave the buffer unchanged |
| `Pcd.Run` | pcd/pcd.c:150-260 | any sequence of calls keeps the position in `[0, 512]` and the buffer at 512 bytes |
| `Pcd.RunWithoutWritesKeepsBuffer` | pcd/pcd.c:161-168 | any sequence of reads and lseeks leaves every byte of the buffer as it was |
| `Pcd.WriteSeekReadRoundTrip` | pcd/pcd.c:157-236 | after a successful write of `n` bytes at `p`, `lseek(SEEK_SET, p)` returns `p` and a read of the same request returns `n` and exactly the first `n` source bytes |
| `Pcd.WrittenBytesSurviveReadsAndSeeks` | pcd/pcd.c:157-236 | after a successful write at `p`, any reads and lseeks, then `lseek(SEEK_SET, p)` and a read of the same request return the written bytes |
| `Pcd.Device.constructor` | pcd/pcd.c:12-14 | the device buffer has 512 bytes and starts zero-filled, as the static `pcd` object does |
| `Pcd.Device.Open` | pcd/pcd.c:130-134 | open always returns 0 and changes nothing |
| `Pcd.Device.Release` | pcd/pcd.c:135-139 | release always returns 0 and changes nothing |
| `Pcd.Device.Read` | pcd/pcd.c:150-175 | the read operation never modifies the buffer, and returns what `ReadSpec` gives, delivers those bytes and leaves that position |
| `Pcd.Device.Write` | pcd/pcd.c:185-212 | the write operation, updating the buffer in place (the copied bytes on success, zeros in the window on a faulting copy), returns and leaves the buffer and position that `WriteSpec` gives |
| `Pcd.Device.Lseek` | pcd/pcd.c:224-260 | the lseek operation returns and leaves the position that `LseekSpec` gives |
| `Pcd.FillSeekReadBack` | pcd/pcd.c:185-212 | on a fresh device, writing 600 bytes returns 512, one more byte returns ENOMEM, `lseek(SEEK_SET, 0)` returns 0 and reading 512 bytes returns the first 512 bytes written |

## Left out

- Module registration and teardown (`pcd_driver_init`, `pcd_driver_cleanup`): device-number allocation, `cdev_add`, class and device creation and the cleanup chain are kernel glue with no logic of the driver's own.
- The `file_operations` table: the methods of `Device` stand for the entries it dispatches to.
- `pr_info` / `pr_err` logging, which has no effect on the driver's state or results.
- `copy_to_user` / `copy_from_user` are not modelled beyond their outcome: a copy moves all bytes or, when the user region faults, none; a faulting `copy_from_user` then zero-fills the whole destination window, as the kernel does for the bytes it could not copy. Partial copies, where a prefix is copied and only the rest zero-filled, are not modelled.
- Concurrency: the driver reads and writes the shared buffer without a lock. The model has one sequential caller.
- Fixed-width arithmetic: in C, `*f_pos + count` is computed in `size_t` and could wrap for a huge `count`, and both `f_pos + offset` (`SEEK_CUR`) and `PCD_MEM_SIZE + offset` (`SEEK_END`) in lseek could overflow `loff_t`. The model uses unbounded integers and requires `0 <= pos <= 512` on entry to each operation.
- `Pcd.File.constructor` sets the position to 0. The kernel does this when the file is opened, not `pcd_open`, which touches no state.
- The `inode` and `file` arguments other than the position, which the operations do not use.
- pcd-multiple/pcd-multiple.c declares only a per-device record with serial-number and permission constants. It has no open, permission check, device table or I/O code, so no multi-device table or permission check is modelled.
- Read and write at a position beyond 512 are excluded by the precondition rather than modelled. Read, write and lseek never produce such a position, but the input does reach the driver: pread(2) and pwrite(2) pass any non-negative offset as `*f_pos`, since `pcd_open` leaves positional I/O enabled, and then pcd/pcd.c:158 and pcd/pcd.c:193 compute a negative count that wraps to a huge `size_t`.
