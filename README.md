# rpi3-gpiovirtbuf in Dafny

A model of the core of `rpi3-gpiovirtbuf.c`. This small Linux program switches the
Raspberry Pi 3's activity LED through the firmware's virtual GPIO buffer. It has three
parts, and each is a module:

- `Mailbox` is the firmware property call (`rpi_firmware_property`).
  - It writes a property-tag request buffer word by word and hands it to the
    firmware through the mailbox ioctl.
  - It checks the status word the firmware leaves in word 1.
  - On success only, it copies the firmware's value buffer back to the caller.
  - The ioctl is a parameter: a function from the request buffer to a `Reply`, which is
    either `Rejected` (the ioctl returned -1) or the words the firmware wrote back.
  - Where the C code prints a message and exits, the model returns `Fail(error)`.
  - The call is specified by the value-level function `Exchange`. The method `Property`
    is proved to behave as `Exchange` says.
- `Address` is the bus-to-physical translation (`BUS_TO_PHYS`). It clears the two
  alias bits of a VideoCore bus address.
- `VirtGpio` is `gpio_set`, which acts on one word of the shared page.
  - The word holds an enable counter in its high half and a disable counter in its low
    half.
  - The LED is lit when `(int16_t)(enables - disables) > 0`.
  - To change the state, gpio_set bumps exactly one counter, wrapping at 2^16, and
    writes the word back.
  - The page is an `array<uint32>`, and `GpioSet` changes `addr[off]` in place.
  - `SetWord` is the function that specifies the new word.
  - The lemmas say when a call actually reaches the requested state, and how repeated
    calls converge.
- `Words` holds the fixed-width unsigned types `uint16` and `uint32` as bounded
  integers. Every wrap-around and every narrowing store is written out.

### What the code does that a reader might not expect

- **The counters wrap; they do not saturate.** `enables++` and `disables++` on a
  `uint16_t` wrap 0xFFFF to 0.
- **A single call does not always switch the LED.** `gpio_set` bumps a counter by one,
  and that reaches the requested state only from a difference of 0 (switching on) or
  1 (switching off).
  - From enables 0 and disables 5, switching on leaves the difference at -4 (see
    `BehindByFiveStaysUnlit`).
  - From enables 0xFFFF and disables 0, the difference is -1, not a large negative
    number. The increment wraps enables to 0, so the difference becomes 0 and the LED
    stays off (see `WrappedEnablesStaysUnlit`).
  - `SetWordReaches` states exactly when one call succeeds.
- **Calling twice is not always the same as calling once.** `SetWordIdempotent` states
  exactly when a repeated call is a no-op. `RepeatConverges` shows that repeated calls
  reach the requested state after `StepsToReach` calls.
- **Signed overflow in the repacking.** `enables << 16` is computed on a promoted
  `int`, so it formally overflows when enables is 0x8000 or more. The model stores the
  bit pattern that compilers produce: `enables * 2^16 + disables`.
- **The int16_t conversion.** Converting an out-of-range value to `int16_t` is
  implementation-defined in C. The model reduces it modulo 2^16 into [-2^15, 2^15)
  (`ToInt16`), which is what GCC and Clang do.
- **Constants.** `RPI_FIRMWARE_STATUS_REQUEST`, `RPI_FIRMWARE_STATUS_SUCCESS`,
  `RPI_FIRMWARE_PROPERTY_END` and `RPI_FIRMWARE_FRAMEBUFFER_GET_GPIOVIRTBUF` take the
  values that the Linux kernel's `raspberrypi-firmware.h` declares for them. That
  header is not part of this model. No proof depends on these values except that the
  success status differs from the request code.

## Model

| member | source | states |
|---|---|---|
| VirtGpio.Enables | rpi3-gpiovirtbuf.c:103 | The enable counter is the high half of the word: the unique r with r * 2^16 <= word < (r + 1) * 2^16 |
| VirtGpio.Disables | rpi3-gpiovirtbuf.c:104 | The disable counter is the low half of the word, so a word below 2^16 is all disable counter (SplitPack gives the full decomposition) |
| VirtGpio.Pack | rpi3-gpiovirtbuf.c:113 | Repacking two 16-bit counters gives a word whose high half is the enable counter and whose low half is the disable counter |
| VirtGpio.SplitPack | rpi3-gpiovirtbuf.c:103-104 | Splitting a word into its halves and repacking them gives the word back |
| VirtGpio.Inc16 | rpi3-gpiovirtbuf.c:110-112 | A counter increment always changes the counter, and it gives 0 exactly from 0xFFFF |
| VirtGpio.Inc16Wraps | rpi3-gpiovirtbuf.c:110-112 | A counter increment is addition of one modulo 2^16 |
| VirtGpio.ToInt16 | rpi3-gpiovirtbuf.c:105 | The int16_t image of a difference of two uint16_t values lies in [-2^15, 2^15) |
| VirtGpio.ToInt16Congruent | rpi3-gpiovirtbuf.c:105 | The int16_t image is congruent to the difference modulo 2^16, and equals it when the difference is already in range |
| VirtGpio.CounterDiff | rpi3-gpiovirtbuf.c:105 | The signed difference of two counters is a value of int16_t |
| VirtGpio.CounterDiffZero | rpi3-gpiovirtbuf.c:105 | The signed difference is zero exactly when the two counters are equal |
| VirtGpio.Diff | rpi3-gpiovirtbuf.c:103-105 | The diff computed from a word is a value of int16_t. SetWordStep (it moves by exactly +1 or -1 per call) and LitModular (its sign) carry its meaning |
| VirtGpio.Lit | rpi3-gpiovirtbuf.c:106 | Equal counters leave the line unlit |
| VirtGpio.LitModular | rpi3-gpiovirtbuf.c:105-106 | The line is lit exactly when enables - disables, taken modulo 2^16, lies between 1 and 0x7FFF |
| VirtGpio.SetWord | rpi3-gpiovirtbuf.c:103-113 | Switching on never touches the disable counter, and switching off never touches the enable counter. SetWordStep and SetWordReaches give the rest of its meaning, and GpioSet shows the page is untouched when the line is already in the requested state |
| VirtGpio.GpioSet | rpi3-gpiovirtbuf.c:97-114 | Only addr[off] may change, and it becomes SetWord of its old value. When the derived state already matches the request, the page is unchanged |
| VirtGpio.IncEnablesDiff | rpi3-gpiovirtbuf.c:105-110 | From an unlit word (difference at most 0), bumping enables raises the signed difference by exactly one, so the wrap never flips its sign |
| VirtGpio.IncDisablesDiff | rpi3-gpiovirtbuf.c:105-112 | From a lit word (difference at least 1), bumping disables lowers the signed difference by exactly one |
| VirtGpio.ToInt16Shift | rpi3-gpiovirtbuf.c:105 | Adding one, plus any multiple of 2^16, to a value whose int16_t image is below 0x7FFF adds exactly one to the image |
| VirtGpio.SetWordStep | rpi3-gpiovirtbuf.c:109-113 | On a change, exactly one counter moves (enables to switch on, disables to switch off) by one modulo 2^16. The other counter is kept, and the difference moves by exactly +1 or -1 |
| VirtGpio.SetWordReaches | rpi3-gpiovirtbuf.c:103-113 | One call reaches the requested state if and only if the line was already there, or the difference was 0 when switching on, or 1 when switching off |
| VirtGpio.SetWordIdempotent | rpi3-gpiovirtbuf.c:103-113 | A second identical call is a no-op if and only if the same condition holds |
| VirtGpio.StepsToReach | rpi3-gpiovirtbuf.c:105-112 | The number of calls needed to reach the requested state is at most 0x8001, and it is zero exactly when the state already matches |
| VirtGpio.Repeat | rpi3-gpiovirtbuf.c:97-114 | The word after k successive runs with the same request: repeated switch-on requests never touch the disable counter, and repeated switch-off requests never touch the enable counter. RepeatConverges, RepeatStable and RepeatSettles carry the rest of its meaning |
| VirtGpio.StepsToReachStep | rpi3-gpiovirtbuf.c:109-113 | Every call that changes the word brings the line exactly one call closer to the requested state |
| VirtGpio.RepeatConverges | rpi3-gpiovirtbuf.c:103-113 | Repeated identical calls reach the requested state exactly at call StepsToReach, and not before |
| VirtGpio.RepeatStable | rpi3-gpiovirtbuf.c:106-108 | Once the requested state is reached, any number of further calls leave the word unchanged |
| VirtGpio.RepeatSettles | rpi3-gpiovirtbuf.c:106-113 | From any word, every run of at least StepsToReach calls ends in the requested state, on the same word as after exactly StepsToReach calls |
| VirtGpio.WordCounters | rpi3-gpiovirtbuf.c:103-105 | A word written as enables * 2^16 + disables has those counters and their int16_t difference |
| VirtGpio.ActivityLedScenario | rpi3-gpiovirtbuf.c:97-114 | From 0, switching on gives 0x00010000 (lit), switching on again keeps it, and switching off gives 0x00010001 (unlit) |
| VirtGpio.WrappedEnablesStaysUnlit | rpi3-gpiovirtbuf.c:105-110 | From enables 0xFFFF and disables 0 the difference is -1. Switching on wraps the word to 0 and the difference to 0, so the LED stays off |
| VirtGpio.BehindByFiveStaysUnlit | rpi3-gpiovirtbuf.c:105-110 | From enables 0 and disables 5, switching on gives 0x00010005, whose difference is -4, so the LED stays off |
| VirtGpio.ActivityLedOnPage | rpi3-gpiovirtbuf.c:97-114 | Three successive runs of the program, with arguments 1, 1 and 0, each make one gpio_set call on word 0 (lines 170 and 177). Starting from a zeroed word 0, they leave 0x00010001 in it and every other word of the page as it was |
| Mailbox.Trunc32 | rpi3-gpiovirtbuf.c:75-78 | Storing a size_t in a uint32_t word keeps the value whenever it fits in 32 bits |
| Mailbox.Header | rpi3-gpiovirtbuf.c:75-79 | Five words: the request code in word 1, the tag in word 2 and zero in word 4. Whenever the buffer's byte size fits in 32 bits, word 0 holds that byte size and word 3 the value buffer's byte size |
| Mailbox.Request | rpi3-gpiovirtbuf.c:68-81 | A request buffer has 5 + n + 1 words for n payload words. When its byte size fits in 32 bits, word 0 holds exactly that byte size |
| Mailbox.GpioVirtBufRequest | rpi3-gpiovirtbuf.c:175 | The virtual GPIO buffer query with a one-word value buffer is the 28-byte buffer [28, request, tag, 4, 0, value, end] |
| Mailbox.RequestLayout | rpi3-gpiovirtbuf.c:74-81 | Word 1 is the request code, word 2 the tag, word 3 the value-buffer size in bytes and word 4 zero. Words 5 .. 5+n-1 are the payload, and word 5+n is the end marker |
| Mailbox.ParseRequest | rpi3-gpiovirtbuf.c:74-81 | A buffer that is read back as a request has exactly 5 + n + 1 words for its n payload words |
| Mailbox.ParseRequestRoundTrip | rpi3-gpiovirtbuf.c:74-81 | Reading back a request buffer whose size fits the size word gives the tag and payload it was built from |
| Mailbox.ParseRequestExact | rpi3-gpiovirtbuf.c:74-81 | Any buffer that is read back as a request equals the request buffer rebuilt from its tag and payload |
| Mailbox.Deliver | rpi3-gpiovirtbuf.c:83 | After the ioctl, the buffer keeps its length. Each word holds what the firmware wrote there, or its request value when the firmware wrote nothing there |
| Mailbox.Exchange | rpi3-gpiovirtbuf.c:62-95 | A successful property call returns a value buffer of the request's size |
| Mailbox.ExchangeStatus | rpi3-gpiovirtbuf.c:83-94 | A rejected ioctl fails. Otherwise, in terms of the words the firmware wrote: the call succeeds if and only if the firmware wrote at least two words and put the success status in word 1, so a shorter reply never passes. On success each value word is the firmware's word at index 5 + k, or the caller's own word where the firmware wrote nothing. On failure the error carries word 1 as the firmware left it, which is the request code if the firmware did not write it |
| Mailbox.SilentFirmwareFails | rpi3-gpiovirtbuf.c:89-92 | A firmware that writes nothing leaves the request code in word 1, and the call fails with that status |
| Mailbox.AnsweringFirmwareDelivers | rpi3-gpiovirtbuf.c:89-94 | A firmware that writes the success status and an answer of the payload's size over the value buffer delivers exactly that answer |
| Mailbox.BuildRequest | rpi3-gpiovirtbuf.c:68-81 | The freshly allocated array, filled through the running index and the copy of the value buffer, holds exactly Request(tag, payload) |
| Mailbox.Property | rpi3-gpiovirtbuf.c:62-95 | The call passes exactly when Exchange succeeds, and then the caller's value buffer holds Exchange's result. On failure the outcome carries Exchange's error and the caller's buffer is unchanged |
| Address.BusToPhys | rpi3-gpiovirtbuf.c:29 | The translated address has both alias bits clear and agrees with the bus address in every other bit |
| Address.BusToPhysMask | rpi3-gpiovirtbuf.c:29 | The translation equals the address masked with 0x3FFFFFFF |
| Address.BusToPhysBelow | rpi3-gpiovirtbuf.c:29 | The translated address is never above the bus address |
| Address.BusToPhysIdempotent | rpi3-gpiovirtbuf.c:29 | Translating twice is the same as translating once |
| Address.BusAliasesAgree | rpi3-gpiovirtbuf.c:29 | All four bus aliases of a physical address translate to that address |

## Left out

- rpi_firmware_open and rpi_firmware_close (lines 38-60) only open and close /dev/vcio. The model replaces the file descriptor with the `firmware` parameter of `Mailbox.Property`.
- mapmem_cpu and unmapmem_cpu (lines 117-154) map /dev/mem. The mapped page is the `array<uint32>` passed to `VirtGpio.GpioSet`, and mmap and munmap failures are not modelled.
- main, usage and atoi (lines 31-36, 156-185) parse arguments and print messages. Only the value of `val` matters to gpio_set, and any int is accepted. Each run of main makes one gpio_set call on word 0. `ActivityLedOnPage` models three successive runs, with arguments 1, 1 and 0, on a word that starts at zero.
- The ioctl's effect is abstract: the firmware is an arbitrary function from the request buffer to a reply. What the VideoCore firmware actually answers is not modelled.
- The firmware and the host run concurrently on the shared page. The model treats each gpio_set call as one atomic step, so a firmware update between the read and the write of addr[off] is not modelled.
- malloc failure (lines 69-72) is not modelled, because allocation in Dafny cannot fail.
- Mailbox.Property: requires `bufSize` to be exactly 4 times the value buffer's length in words. A byte size that is not a multiple of 4, or a caller buffer of another size, is not modelled.
- VirtGpio.GpioSet: requires `off` to lie inside the page. An out-of-range offset is undefined behaviour in C and is not modelled.
- The messages printed to stderr before each exit are left out. Each exit is a `Fail` outcome carrying the error.
