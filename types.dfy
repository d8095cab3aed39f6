/** The content types the fetcher promises to its caller (`Story` and `MaximContent`). */
module Types {

  /** One illustrative story: a title, a narrative and a quote. */
  datatype Story = Story(title: string, narrative: string, quote: string)

  /** The explanation of one maxim: the maxim itself, its meaning and its stories, in order. */
  datatype MaximContent = MaximContent(maxim: string, meaning: string, stories: seq<Story>)
}
