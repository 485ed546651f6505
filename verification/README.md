# vrr-test: a Dafny model of its sequential core

vrr-test opens an OpenGL window and moves a white vertical strip back and forth so that a
viewer can judge the frame pacing of a variable-refresh-rate display. Almost all of it is
OpenGL and GLFW calls. This project models the three pieces of it that are plain sequential
logic once those calls are replaced by parameters:

- `LocationFormat` (`location_format.dfy`) models the `std::formatter<std::source_location>`
  specialisation in `src/misc.hpp`. `parse` scans the format spec of a replacement field up
  to the first `}` and picks one of five styles: `short`, `file`, `line`, `func`, or default.
  `format` renders file, function and line in that style. The short style uses a `basename`
  helper that keeps what follows the last `/` or `\`.
- `ShaderProgram` (`shader_program.dfy`) models the `GLShader` wrapper in
  `src/glshader.cpp`. It covers the name-to-location uniform registry, with its cache-or-ask
  semantics and its "no such uniform" error. It also covers the stage lifecycle: a stage is
  attached only if it compiled, and stages are detached and deleted only after a successful
  link. The composition `Strip::initShader` performs is modelled too.
- `LoopControl` (`loop_control.dfy`) models the key callback `Window::onkeyboard` in
  `src/window.cpp`, over swap interval, frame-rate limit, speed and close flag. It also
  models the frame deadline `exec` advances on each iteration.
- `Wrappers` (`wrappers.dfy`) holds the `Option` and `Result` types the others share.

Where the driver or the window system answers, the model takes the answer as a parameter:

- whether a stage compiled, and its log;
- whether the program linked, and its log;
- whether `glGetError` reports an error after linking;
- what `glGetUniformLocation` returns, as a function from name to `GLint`.

`glCreateShader` is modelled as a counter that hands out fresh non-zero names. A thrown
`std::runtime_error` becomes the `error` field of a `Step`. The step's `after` field is
the wrapper's state once the exception has left the member function, so every error path
states what it leaves behind.

The animation speed is assumed to be floating point, since `speed` and `speedStep` are not
declared in `src/window.hpp`; only W and S change it. It is a type parameter here,
and the caller supplies what multiplying and dividing it by the step do.

Where the sources disagree with each other, the model follows `src/window.cpp` and
`src/glshader.cpp`:

- `src/window.hpp` does not declare `vsync`, `speed`, `speedStep`, `fpsLimit` or
  `lastFrameTime`, though `src/window.cpp` uses them. Their initial values are therefore
  unknown, and the model leaves them free.
- `src/glshader.h` declares `compile()` non-const, while `src/glshader.cpp` defines it
  `const`.
- `src/glshader.cpp` calls `GLMisc::checkGLerror()` with no arguments, while
  `src/glmisc.hpp` declares three.

V sets any non-zero swap interval to 0, so two presses restore it only when it was 0 or 1
(`ToggleVsyncTwice`).

## Model

| member | source | states |
|---|---|---|
| LocationFormat.FirstClose | src/misc.hpp:41-42 | the scan stops at the first `}`, or at the end of the range; no `}` comes before the stop |
| LocationFormat.Parse | src/misc.hpp:31-66 | an empty range, or one starting with `}`, returns position 0 and keeps the style; otherwise the returned position is the first `}` (or the end), never past it, and the text before it picks the style |
| LocationFormat.ScanIgnoresRest | src/misc.hpp:41-65 | nothing after the first `}` affects the returned position or the style |
| LocationFormat.ScanKeyword | src/misc.hpp:45-60 | `short}`, `file}`, `line}` and `func}` select Short, File, Line and Func, and parsing stops on the brace |
| LocationFormat.ScanUnknownSpec | src/misc.hpp:61-64 | any other non-empty spec resets the style to Default |
| LocationFormat.StyleOf | src/misc.hpp:45-64 | the style is Default exactly when the text is none of the four keywords |
| LocationFormat.StyleOfKeyword | src/misc.hpp:45-64 | the text-to-style mapping and the style-to-keyword mapping are inverse on the four non-default styles |
| LocationFormat.FindLastOf | src/misc.hpp:77 | `find_last_of` returns npos exactly when no wanted character occurs; otherwise it returns the position of a wanted character with none after it |
| LocationFormat.Basename | src/misc.hpp:75-79 | the result is a suffix of the path, contains no `/` or `\`, and is preceded by a separator whenever it is shorter than the path (it is the longest such suffix) |
| LocationFormat.BasenameUnchanged | src/misc.hpp:77-78 | the path comes back unchanged if and only if it holds no `/` or `\` |
| LocationFormat.BasenameIdempotent | src/misc.hpp:75-79 | taking the basename twice gives the same result as taking it once |
| LocationFormat.Decimal | src/misc.hpp:88 | an unsigned line number renders as a non-empty run of digits with no leading zero |
| LocationFormat.DecimalRoundTrip | src/misc.hpp:88 | reading the rendered digits back gives the line number |
| LocationFormat.FuncField | src/misc.hpp:86 | the empty-function conditional returns the function name unchanged |
| LocationFormat.Format | src/misc.hpp:68-96 | File and Func emit only that component; Line emits the canonical digits of the line (non-empty, no leading zero, reading back as the line); Default renders the full file and Short its basename, then `:`, the function name and `(`, with nothing else between, and end in `(<line>)`, from which the line reads back; the length is exactly that of those pieces |
| LocationFormat.TrailingLineOf | src/misc.hpp:84-94 | the line number can be read back from a `(<line>)` tail, even if the function name itself holds parentheses |
| LocationFormat.ShortIsSuffixOfDefault | src/misc.hpp:83-94 | the Short rendering is a suffix of the Default rendering of the same location, so it is never longer |
| LocationFormat.FormatWithSpecStyles | src/misc.hpp:31-96 | a fresh formatter given `{:short}`, `{:file}`, `{:line}`, `{:func}` or `{}` produces the rendering of that style |
| ShaderProgram.NewShader | src/glshader.cpp:10-13 | a new wrapper has no stages and no uniforms, and satisfies the wrapper invariant |
| ShaderProgram.AddUniform | src/glshader.cpp:32-47 | a cached name returns without change; a new name whose location is -1 throws "no such uniform" and leaves the state unchanged; otherwise exactly that binding is added, every other entry is kept, and nothing outside the registry changes |
| ShaderProgram.GetUniformLocation | src/glshader.cpp:87-97 | succeeds exactly for registered names, with the cached location; for others throws "no such uniform" |
| ShaderProgram.AddUniformKeepsInvariants | src/glshader.cpp:39-46 | no registry entry ever holds -1, and entries keep agreeing with the driver's locations |
| ShaderProgram.AddUniformIdempotent | src/glshader.cpp:32-47 | registering a name twice leaves the same state as registering it once, and the second call does not throw |
| ShaderProgram.AddUniformCachedIgnoresDriver | src/glshader.cpp:34-38 | for a registered name the outcome does not depend on the driver at all, so the driver is not asked |
| ShaderProgram.AddThenGet | src/glshader.cpp:87-96 | after a successful registration the name resolves to the cached or the driver's location, which is never -1 |
| ShaderProgram.AddUniformsOutcome | src/glshader.cpp:32-47 | registering a list succeeds exactly when each name is cached or known to the driver; then the registry gains exactly those names and keeps the old entries |
| ShaderProgram.CreateShader | src/glshader.cpp:20-30 | `glCreateShader` yields a fresh non-zero name, which is stored in the stage's ID field; the other ID fields, the attached set and the uniforms are kept |
| ShaderProgram.AddShader | src/glshader.cpp:129-145 | a stage is attached exactly when it compiled; a failed compile throws with the source and the log before attaching; nothing else changes |
| ShaderProgram.AddVertexStage | src/glshader.cpp:20-24 | the vertex stage gets a new shader object, which ends up attached exactly when it compiled; the fragment and geometry ID fields are kept |
| ShaderProgram.AddFragmentStage | src/glshader.cpp:26-30 | the fragment stage gets a new shader object, which ends up attached exactly when it compiled; the vertex and geometry ID fields are kept |
| ShaderProgram.AddStageFrame | src/glshader.cpp:129-145 | adding a stage never detaches anything or changes uniforms; the new object exists whether or not it compiled |
| ShaderProgram.Compile | src/glshader.cpp:49-80 | a failed link throws and leaves every stage attached; a successful link detaches and deletes exactly the live stages named by the ID fields, then throws if the error flag is raised |
| ShaderProgram.CompileDetachesOnlyAfterLink | src/glshader.cpp:51-77 | if any stage was detached, the link succeeded; after success no stage in an ID field is attached or alive |
| ShaderProgram.OperationsKeepValid | src/glshader.cpp:20-80 | every member function keeps the wrapper invariant, whether it returns or throws: fresh names, attached stages are live, no -1 locations |
| ShaderProgram.BuildStripShader | src/strip.cpp:18-26 | on success the location read back is not -1, it is the only registered uniform, and the wrapper invariant holds |
| ShaderProgram.BuildStripShaderOutcome | src/strip.cpp:18-26 | building the strip's program succeeds exactly when both stages compile, the link succeeds with no error flag, and `pos` is active; the first failure decides the error (vertex compile, fragment compile, link, error flag, missing `pos`, in that order); on success the stages are gone and `pos` is the only uniform |
| LoopControl.OnKeyboard | src/window.cpp:104-159 | a non-press or an unbound key changes nothing; `glfwSwapInterval` is called exactly on a V press, with the new value |
| LoopControl.Binding | src/window.cpp:104-159 | exactly the nine keys ESC, Q, V, W, S, E, D, R and F are bound |
| LoopControl.OnKeyboardIsBinding | src/window.cpp:104-159 | the run of independent `if`s equals a one-key-one-command table: at most one branch fires, and only on a press |
| LoopControl.QuitKeys | src/window.cpp:108-111 | ESC and Q set the close flag and leave swap interval, speed and limit unchanged |
| LoopControl.ToggleVsyncKey | src/window.cpp:113-119 | V maps 0 to 1 and anything else to 0, and passes the new value to `glfwSwapInterval` |
| LoopControl.ToggleVsyncTwice | src/window.cpp:113-116 | two V presses restore the state if and only if the swap interval was 0 or 1 |
| LoopControl.SpeedKeys | src/window.cpp:121-132 | W and S apply the speed step and change nothing else |
| LoopControl.FpsKeys | src/window.cpp:134-158 | E, D, R and F change the limit by +10, -10, +1 and -1 and nothing else |
| LoopControl.FpsKeysCancel | src/window.cpp:134-158 | E then D, and R then F, return to the original state |
| LoopControl.OnKeysIsTable | src/window.cpp:104-159 | calling the callback on each event in turn equals running the key table (command per key, presses only) over the same events |
| LoopControl.OnKeysKeepsSpeed | src/window.cpp:121-132 | a sequence of events with no W or S keeps the speed |
| LoopControl.RepeatedD | src/window.cpp:140-145 | n presses of D lower the limit by exactly 10n, with no floor |
| LoopControl.FpsLimitUnbounded | src/window.cpp:140-145 | from any limit, some number of D presses reaches a limit of zero or below |
| LoopControl.FrameInterval | src/window.cpp:48-50 | the interval is defined exactly for a limit above 0 or below -1,000,000; it is positive for limits up to 1,000,000, and 0 above that or below -1,000,000 |
| LoopControl.FrameIntervalIsFloor | src/window.cpp:48-50 | for a positive limit the interval is the floor of 1,000,000 / limit |
| LoopControl.DeadlineAdvances | src/window.cpp:48-60 | with a positive limit the new `lastFrameTime` is never earlier, and is strictly later exactly when the limit is at most 1,000,000 |
| LoopControl.DeadlineNotBefore | src/window.cpp:48-50 | a defined deadline is never before the previous frame time |
| LoopControl.PacedMonotone | src/window.cpp:45-66 | frame times built by successive deadlines never go back, and move strictly forward whenever the limit is in 1..1,000,000 |
| LoopControl.NextDeadline | src/window.cpp:48-50 | `waitUntil` is defined exactly when the limit is above 0 or below -1,000,000; it is never before `lastFrameTime`, strictly after it for limits in 1..1,000,000, and equal to it beyond that range |
| LoopControl.SleepUntilDeadline | src/window.cpp:48-60 | one iteration appends `lastFrameTime + interval` as the new `lastFrameTime` |
| LoopControl.Exec | src/window.cpp:42-67 | every iteration starts with the close flag clear and paces itself with the limit the controls hold after the earlier iterations' key events. Each frame time is the previous plus the interval of that limit. Frame times are non-decreasing, and strictly increasing when the limit is in 1..1,000,000. Key events are applied in order. The loop stops on close, on an undefined interval, or when the supplied events run out |

## Left out

- OpenGL and GLFW calls are not modelled: context and window creation, buffers, vertex arrays, draw calls, swap and poll. The model takes their answers as parameters, as described above.
- `src/strip.cpp` and `src/strip.hpp` are modelled only in the shader-building part of `Strip::initShader`. GPU buffer setup, the draw call and the null-pointer "init once" check are left out.
- `GLMisc::checkGLerror` (`src/glmisc.hpp`) is a table around `glGetError`. Only the raise-or-not outcome after linking is modelled (`errorAfterLink`). Its message text is not modelled.
- The text of exception messages is not modelled. Each error keeps its cause and payload: source and log, link log, or uniform name.
- `glDetachShader` on a stage that is live but not attached raises a GL error. That happens, for instance, after a stage failed to compile and the caller went on anyway. The model folds it into the `errorAfterLink` answer instead of deriving it.
- `calcPos`, `update_fps_counter` and `get_frametime` are left out. They are floating-point time and trigonometry held in function-local statics.
- The W and S speed arithmetic (multiply or divide by `speedStep`) is left out, because `speedStep` is not declared in src/window.hpp, so neither its type nor its value is known. Speed is a type parameter.
- `glDebugOutput`, `onFramebufferSize`, `initGL`, `createWindow` and `init` are left out. They print, or they configure the window system.
- `onerror` is left out. It turns a GLFW error into a thrown `std::runtime_error`, and the model has no GLFW errors.
- `sleep_until`, `std::println` and console flushing are left out; `exec` is modelled by its close-flag test, its deadline arithmetic and its key polling, with the clock as a whole number of microseconds.
- Reaching a time point is not modelled, and a frame time is a whole number of microseconds. The clock's nanosecond resolution is not modelled.
- `src/main.cpp` is left out. It prints the message of an escaping exception to standard error and returns 1, and returns 0 otherwise.
- LoopControl.Exec: the loop runs over a finite, caller-supplied list of per-iteration key events. It stops when that list runs out, whereas the program runs until the window closes.
- LoopControl.FrameInterval: `static_cast<unsigned>` of infinity, or of a value of -1 or less, is undefined behaviour in C++. With `fpsLimit` assumed to be an `int` (see the next line), any limit in -1,000,000..0 leads there, and the model returns `None` rather than some value.
- LoopControl.FpsKeys: `fpsLimit` is assumed to be a C++ `int`, because its declaration is missing from `src/window.hpp`. Driving it past the 32-bit range by key presses would be signed overflow (undefined). The model uses unbounded integers.
- ShaderProgram.AddUniform: `glGetUniformLocation` is assumed to answer from the linked program alone. Calling it before `compile` is not distinguished.
