# CarND MPC controller: message handling and polynomial helpers

The controller drives a simulated car over a Socket.IO websocket. Each
telemetry frame carries waypoints and the vehicle state. The controller fits
a cubic through the waypoints and runs a model-predictive optimiser. It then
answers with a steering/throttle command, the predicted trajectory and a
sampled reference line. This project models the deterministic routines of
`src/main.cpp` that surround the optimiser, and proves properties of them:

- `socketio.dfy` (module `SocketIO`) covers `hasData`, which cuts the JSON
  payload out of a frame, and the handler's dispatch. A frame is ignored if it
  is not a `42` event; an empty payload gets the reply `42["manual",{}]`; any
  other payload is handed on. `std::string::find`, `find_first_of`, `rfind`
  and `substr` are modelled on `seq<char>`. `size_t` arithmetic is modelled
  modulo 2^64.
- `polynomial.dfy` (module `Polynomial`) covers `polyeval`, a loop checked
  against a term-by-term sum and against Horner's rule. It also covers the
  design-matrix part of `polyfit`, filled in place on an `array2<real>`.
- `display.dfy` (module `Display`) covers splitting the optimiser's flat result
  into the `mpc_x`/`mpc_y` display points, and sampling 25 reference-line
  points.

`double` is modelled by exact `real`, and `pow(x, i)` by exact integer powers.
No claim is made about IEEE-754 rounding.

`polyfit` asserts equal lengths and `1 <= order <= m - 1`
(src/main.cpp:50-51). In a build without `NDEBUG` a failed assert aborts the program, so these two
conditions become the preconditions of `PolyfitDesignMatrix`.

`hasData` as written has an unsigned wrap-around (see "## Findings"). The
model keeps both readings: `HasDataAsWritten` and `OnMessageAsWritten` follow
the code, `HasData` and `OnMessage` give the evidently intended behaviour, and
lemmas state where the two agree and where they differ.

## Model

| member | source | states |
|---|---|---|
| `SocketIO.Find` | src/main.cpp:25 | `find` returns an index exactly when the pattern occurs. The index is an occurrence, and no earlier one exists. |
| `SocketIO.FindFirstOf` | src/main.cpp:26 | `find_first_of("[")` returns the first position holding `[`, and returns none exactly when no `[` exists. |
| `SocketIO.RFind` | src/main.cpp:27 | `rfind("}]")` returns an occurrence with none after it, and returns none exactly when `}]` never occurs. |
| `SocketIO.Substr` | src/main.cpp:31 | `substr(pos, count)` is the `count` characters from `pos` when that many remain, and the whole rest of the string otherwise. |
| `SocketIO.HasDataAsWritten` | src/main.cpp:24-34 | The code as written returns `""` when the frame contains `null`, and `""` when it has no `[` or no `}]`. Anything else it returns starts with `[`. |
| `SocketIO.AsWrittenCases` | src/main.cpp:24-34 | Take a frame without `null`, the first `[` at `b1` and the last `}]` at `b2`. If `b1 < b2` the code returns exactly `s[b1..b2+2]`. If `b1 == b2+2` it returns `""`. If `b1 > b2+2`, the length wraps modulo 2^64 and it returns the whole tail `s[b1..]`. |
| `SocketIO.AsWrittenEmpty` | src/main.cpp:24-34 | The code returns `""` only when the frame contains `null` or has no `[` before a `}]`. |
| `SocketIO.HasData` | src/main.cpp:21-34 | The corrected `hasData`, as its comment describes it. The payload is `""` whenever `null` occurs. It is non-empty exactly when `null` is absent and some `[` precedes some `}]`. It is then exactly the slice from the first `[` to the end of the last `}]`. |
| `SocketIO.PayloadShape` | src/main.cpp:26-31 | A non-empty corrected payload starts with `[`, ends with `}]`, is a substring of the frame and never contains `null`. |
| `SocketIO.AsWrittenAgrees` | src/main.cpp:24-34 | The code as written and the corrected `hasData` return the same string on every frame of at most 2^63 - 1 characters, except when the first `[` lies more than two characters past the last `}]`. |
| `SocketIO.AsWrittenWrapTail` | src/main.cpp:31 | On every frame without `null` whose first `[` lies more than two characters past its last `}]`, the code returns the tail from that `[`, and the corrected `hasData` returns `""`. |
| `SocketIO.WrapCounterexample` | src/main.cpp:31 | On the frame `42}]x[`, the code returns `[` and the corrected function returns `""`. |
| `SocketIO.Classify` | src/main.cpp:86-88 | The handler's decision on the result of `hasData`. A frame that is not an event is ignored. An event with an empty payload gets the exact reply `42["manual",{}]` (lines 194-197). Any other payload is handed on unchanged. |
| `SocketIO.OnMessageAsWritten` | src/main.cpp:86-88 | The handler with the code's own `hasData`. A frame is handled exactly when it is longer than 2 characters and starts with `42`. The manual reply goes only to frames that contain `null` or have no `[` before a `}]`. A payload handed on is exactly what `HasDataAsWritten` returns, starts with `[`, and comes from a frame without `null`. A frame is handed on exactly when it is an event and `HasDataAsWritten` returns a non-empty string. |
| `SocketIO.OnMessage` | src/main.cpp:86-88 | The handler with the corrected `hasData`. A frame is handled exactly when it is longer than 2 characters and starts with `42`. A handled frame gets the exact reply `42["manual",{}]` precisely when it contains `null` or has no `[` before a `}]` (lines 194-197). Otherwise the payload handed on is exactly `HasData(frame)`. It starts with `[`, ends with `}]`, has no `null` and lies inside the frame after the `42` prefix. |
| `SocketIO.DispatchAgrees` | src/main.cpp:86-88 | On every frame outside the wrap case the handler as written and the corrected handler act identically. |
| `SocketIO.DispatchWrapDiffers` | src/main.cpp:31 | On every event frame in the wrap case, the handler as written passes the tail from the first `[` on to the JSON parser, while the corrected handler sends the manual reply. |
| `Polynomial.PolyEval` | src/main.cpp:37-43 | The accumulation loop returns `Σ_{i<n} coeffs[i]·x^i`. |
| `Polynomial.PolyCons` | src/main.cpp:37-43 | The sum splits into its constant term plus `x` times the sum of the remaining coefficients. |
| `Polynomial.PolyIsHorner` | src/main.cpp:37-43 | The term-by-term sum that `polyeval` computes equals Horner's rule on every input. |
| `Polynomial.PolyAtZero` | src/main.cpp:37-43 | `polyeval` of no coefficients is 0. At `x = 0` it is `coeffs[0]`, which is the value the handler takes as `cte0` (line 116). |
| `Polynomial.PolyfitDesignMatrix` | src/main.cpp:48-62 | The code requires equal lengths and `1 <= order <= m-1`. The result is a fresh `m × (order+1)` matrix with `A[j,i] == x_j^i`, so every row is `1, x_j, …, x_j^order`. |
| `Polynomial.DesignRowIsPoly` | src/main.cpp:52-65 | A design-matrix row times a coefficient vector is that polynomial at `x_j`. So `A·c - y` is the residual vector that the least-squares solve minimises. |
| `Display.InterleaveAt` | src/main.cpp:146-154 | The flat layout puts the k-th x value at position `2k` and the k-th y value at position `2k+1`. |
| `Display.SplitTrajectory` | src/main.cpp:146-154 | Let `n` be the length of the result. `mpc_x[k] == result[2+2k]` and `mpc_y[k] == result[3+2k]`. The lengths are `(n-1)/2` and `(n-2)/2`, or 0 when `n < 2`. Indices 0 and 1 (steer, throttle) are never taken. For `n >= 2`, interleaving the two lists again rebuilds `result[2..]`. |
| `Display.ReferenceLine` | src/main.cpp:163-170 | Exactly 25 points, with `next_x[i] == 2.5·i` and `next_y[i] == polyeval(coeffs, 2.5·i)`. `next_x` is strictly increasing, and the line starts at `(0, coeffs[0])`. |

## Left out

- The frame: the model's `frame` is `sdata`. Building it from the uWS buffer with `string(data).substr(0, length)` (line 84) is not modelled.
- The websocket hub (`onMessage` registration, `onHttpRequest`, `onConnection`, `onDisconnection`, `listen`, `run`): network I/O.
- JSON parsing of the payload, the `"telemetry"` event check and the dump of the `42["steer",…]` reply: these need the nlohmann JSON library, which is not part of this model. `OnMessage` therefore stops at handing the payload on.
- The unit conversions at ingestion (speed times 0.44704, steering sign flip): they apply to values read from JSON.
- The global-to-local waypoint transform and the latency projection of the state: they use `cos`, `sin` and `atan`, which exact reals cannot express.
- `deg2rad`/`rad2deg` and the steering normalisation by `deg2rad(25)`: they depend on `M_PI`, which is not an exact real.
- The Householder QR least-squares solve inside `polyfit`: an Eigen library call. `PolyfitDesignMatrix` returns the matrix that the solve is given.
- `MPC::Solve` and `initParams`: only declared in `src/MPC.h`. The nonlinear optimiser behind them is not part of this model.
- Logging with `cout`, the 100 ms `sleep_for`, and the wall-clock measurement that updates `lastDelayEstimate`: timing and I/O.
- Floating-point rounding: all arithmetic is exact, so `PolyEval` and `ReferenceLine` state exact results, not results within rounding error.
- `SocketIO.AsWrittenCases`: stated only for strings of at most 2^63 - 1 characters, an upper bound on the `max_size()` of a 64-bit `std::string`. The same bound applies to `AsWrittenAgrees`, `AsWrittenEmpty`, `AsWrittenWrapTail`, `DispatchAgrees`, `DispatchWrapDiffers`, and the manual-reply clause of `OnMessageAsWritten`.
- `SocketIO.Substr`: `std::string::substr` throws `out_of_range` when `pos > size()`. The precondition `pos <= |s|` leaves that case out. `hasData` never reaches it: it calls `substr` only at a position holding `[`.

## Findings

| source | as written | input that shows it | evidently intended | confidence | as-written member | corrected member |
|---|---|---|---|---|---|---|
| src/main.cpp:31 | The length `b2 - b1 + 2` of the `substr` is computed in unsigned `size_t`. When the first `[` lies more than two characters after the last `}]`, it wraps to a huge count, and `hasData` returns the whole tail from that `[`. The result is non-empty, so the handler passes it to `json::parse` instead of sending the manual reply. What follows depends on the tail and is outside this model. `json::parse` throws on `[`. `j[0].get<string>()` throws when the first element is not a string (`42}]x[1]`). Any other event name gets no reply (`42}]x["x"]`). A telemetry array closed by `} ]` is processed as telemetry. | `42}]x[` gives `[` | `""`, leading to the manual reply, as for any frame without a `[`…`}]` pair | medium, not executed | `SocketIO.HasDataAsWritten`, `SocketIO.AsWrittenWrapTail`, `SocketIO.WrapCounterexample`, `SocketIO.OnMessageAsWritten`, `SocketIO.DispatchWrapDiffers` | `SocketIO.HasData`, `SocketIO.OnMessage` |
