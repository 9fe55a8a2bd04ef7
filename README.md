# kafka-cli consumer core, modelled in Dafny

kafka-cli is a command-line Kafka consumer written in Go. Its decision logic sits in `main.go` and has three parts. This project models each part and proves properties about it:

- **The consumer control loop** (`consumer.dfy`, module `Consumer`). A `run` flag starts true. Each cycle checks for a pending SIGINT/SIGTERM first. If one is waiting, the cycle sets `run` to false and does not poll. Otherwise the cycle polls the broker once and classifies the event: a nil event, a message, an error, or anything else. Only `ErrAllBrokersDown` among the errors ends the loop. Each cycle's observation is an `Input`. The loop (`Run`) is a `while` over a finite trace of inputs, with `run` as a mutable local. The printing is reduced to an abstract `Report` per cycle.
- **The default group id** (`group_id.dfy`, module `GroupId`). `hash_group` hex-encodes a SHA-1 digest (lowercase Base16, section 8 of RFC 4648). It then keeps the first 7 characters.
- **The session timeout** (`session_timeout.dfy`, module `SessionTimeout`). The `--timeout` text is read with `strconv.Atoi`. A syntax error is discarded, so the value is 0. The result is multiplied by 1000.

`wrappers.dfy` holds the `Option` type the others use.

## Model

| member | source | states |
|---|---|---|
| `Consumer.ReportOf` | main.go:95-120 | Nothing is reported exactly when the poll returned nil. A signal is reported only for a signal. Every message is reported. Headers are shown exactly when the message has headers and verbose is set. Every error is reported with its own code. Any other event is reported as ignored. |
| `Consumer.Cycle` | main.go:93-121 | A pending signal sets `run` to false and skips the poll. Every other cycle polls. A nil event, a message and any other event leave `run` true. An error clears `run` exactly when its code is `ErrAllBrokersDown`. The report is the one the reporter gives for the input. |
| `Consumer.Run` | main.go:86-122 | `run` ends true exactly when the trace has no signal and no all-brokers-down error; then every input is consumed. Otherwise the loop consumes up to and including the first such input and nothing after it. Every consumed cycle polls the broker, except a final signal cycle. One report is logged per consumed input. |
| `GroupId.EncodeToString` | main.go:24 | The encoding is twice as long as the input and uses only the characters `0-9a-f`. |
| `GroupId.DecodeString` | main.go:24 | A successful decode yields half as many bytes as the text has characters. This is the inverse that the encoding is checked against. |
| `GroupId.EncodeAt` | main.go:24 | Byte i is encoded at characters 2i (high nibble) and 2i+1 (low nibble). |
| `GroupId.EncodeAppend` | main.go:24 | Encoding a concatenation gives the concatenation of the encodings. |
| `GroupId.DecodeEncode` | main.go:24 | Decoding the encoding of any byte string gives back that byte string. |
| `GroupId.EncodeInjective` | main.go:24 | Two byte strings have the same encoding exactly when they are equal. |
| `GroupId.HashGroup` | main.go:18-27 | For a 20-byte digest, the id has exactly 7 characters, each in `0-9a-f`. The `[:7]` slice is always in bounds, because the encoding is 40 characters long. |
| `GroupId.HashGroupDigits` | main.go:22-26 | The id is the encoding of the first three digest bytes, followed by the high nibble of the fourth byte. |
| `GroupId.HashGroupCollision` | main.go:18-27 | Two digests give the same id exactly when they agree on their first 28 bits. |
| `SessionTimeout.Atoi` | main.go:44 | A parse succeeds exactly when the text is an optional leading sign followed by one or more digits. A `-` sign gives a value that is not positive; otherwise the value is not negative. |
| `SessionTimeout.Itoa` | main.go:44 | Every integer prints as text that `Atoi` accepts. |
| `SessionTimeout.DigitsOfNat` | main.go:44 | Reading back the decimal digits of a natural number gives that number. |
| `SessionTimeout.AtoiItoa` | main.go:44 | `Atoi` reads back every integer's decimal text exactly. |
| `SessionTimeout.AtoiSigned` | main.go:44 | An optional `+` or `-` followed by a non-empty run of digits parses to the digits' value, negated for `-`. |
| `SessionTimeout.DigitsLeadingZero` | main.go:44 | A leading `0` does not change the value of a run of digits. |
| `SessionTimeout.DigitsLeadingZeros` | main.go:44 | Any number of leading zeros does not change the value of a run of digits. |
| `SessionTimeout.AtoiDecimal` | main.go:44 | An optional `+` or `-`, then any number of zeros, then the digits of n: `Atoi` gives n, or -n for `-`. |
| `SessionTimeout.CanonicalDigits` | main.go:44 | A run of digits with no leading zero is exactly the decimal text of its value. |
| `SessionTimeout.DigitsParts` | main.go:44 | Every run of digits is some zeros followed by the decimal text of a number. |
| `SessionTimeout.DecimalParts` | main.go:44 | Every text `Atoi` accepts has the form covered by `AtoiDecimal`. Together the two fix `Atoi`'s value on every text it accepts. |
| `SessionTimeout.SessionTimeoutMs` | main.go:44-50 | The timeout in milliseconds is a multiple of 1000. Text that is not a number gives 0. A leading `-` gives a value that is not positive. |
| `SessionTimeout.TimeoutOfNumber` | main.go:44-50 | A timeout written as the integer n gives n * 1000 milliseconds. |
| `SessionTimeout.TimeoutOfDecimal` | main.go:44-50 | Any spelling of n seconds (a sign, leading zeros, then the digits of n) gives n * 1000 milliseconds, or -n * 1000 for `-`. |
| `SessionTimeout.DefaultTimeout` | main.go:34 | The default `--timeout` of `"6"` gives 6000 milliseconds. |

## Left out

- Creating, subscribing and closing the Kafka consumer (main.go:46-52, 70, 73). These are calls into confluent-kafka-go, whose behaviour is not visible here. The startup failure paths and `os.Exit(1)` (main.go:54-64, 75-84) are left out for the same reason.
- `Poll(100)` and its 100 ms wait (main.go:100). The poll is modelled only as the next `Input` of the trace.
- Signal registration and the signal channel (main.go:42-43). OS signal delivery and the non-blocking `select` become "the next input is `Signal`".
- `Consumer.Run`: it stops when a finite trace ends. The real loop keeps polling for as long as `run` is true. A trace stands for a finite prefix of what the loop observes.
- `ErrAllBrokersDown` is given librdkafka's numeric code (-187). The model uses only whether an error's code equals it.
- All `fmt` output and message formats (main.go:55-61, 66, 69, 76-80, 88-89, 96, 108-111, 114, 119). Each cycle's output is an abstract `Report`.
- SHA-1, `time.Now()` and `time.Time.String()` (main.go:22-23, 32). `GroupId.HashGroup` takes the 20-byte digest as a parameter, because SHA-1 (FIPS 180-4) is not modelled.
- kingpin flag parsing and flag defaults (main.go:29-36, 40). This includes the rule that an explicit `--group` replaces the derived one.
- `SessionTimeout.SessionTimeoutMs`: integers are unbounded. Go's `int` is 64 bits wide, so three behaviours are not modelled: `Atoi` clamping out-of-range text to the int64 limits, the range error being discarded, and `timeout * 1000` wrapping around.
